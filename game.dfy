/** The state of the `App` component and the operations that change it:
    `startGame` with the reveal effect, `markCell`, the win effect, `reset`
    and `onUpdate`. */
module Game {
  import opened Grid
  import opened Placement
  import opened Adjacency
  import opened FloodFill

  /** The win test of the win effect. */
  predicate Won(openCount: int, mineCount: int, rows: int, columns: int)
  {
    openCount + mineCount == rows * columns
  }

  /** Some open cell holds a mine. */
  predicate HitMine(openFields: seq<Point>, mines: seq<Point>)
  {
    exists k | 0 <= k < |openFields| :: openFields[k] in mines
  }

  /** The check of `onUpdate`: only a mine count above `r * c` is refused. */
  predicate ConfigAccepted(r: int, c: int, m: int)
  {
    !(r * c < m)
  }

  /** `findIndex`: the first index of `p` in `s`, or -1. */
  function IndexOf(s: seq<Point>, p: Point): (i: int)
    ensures -1 <= i < |s|
    ensures i == -1 <==> p !in s
    ensures 0 <= i ==> s[i] == p && p !in s[..i]
  {
    if s == [] then -1
    else if s[0] == p then 0
    else
      var j := IndexOf(s[1..], p);
      if j == -1 then -1 else j + 1
  }

  /** The list `markCell` stores: unchanged for an open cell; without the flag
      of `p` if `p` is flagged; with `p` appended if it is not and fewer than
      `mineCount` flags are set. */
  function ToggleMark(marked: seq<Point>, openFields: seq<Point>, mineCount: int, p: Point): (r: seq<Point>)
    ensures p in openFields ==> r == marked
    ensures p !in openFields && Distinct(marked) ==> (p in r <==> p !in marked && |marked| != mineCount)
    ensures forall q | q != p :: q in r <==> q in marked
    ensures Distinct(marked) ==> Distinct(r)
    ensures 0 <= mineCount && |marked| <= mineCount ==> |r| <= mineCount
  {
    if p in openFields then marked
    else
      var idx := IndexOf(marked, p);
      if idx != -1 then
        assert marked == marked[..idx] + [p] + marked[idx + 1..];
        marked[..idx] + marked[idx + 1..]
      else if |marked| != mineCount then marked + [p]
      else marked
  }

  /** Flagging a closed, unflagged cell and then toggling it again gives back
      exactly the list of flags, also when the flag cap made both no-ops. */
  lemma FlagThenUnflag(marked: seq<Point>, openFields: seq<Point>, mineCount: int, p: Point)
    requires p !in openFields && p !in marked
    ensures ToggleMark(ToggleMark(marked, openFields, mineCount, p), openFields, mineCount, p) == marked
  {
    if |marked| != mineCount {
      var flagged := marked + [p];
      assert IndexOf(flagged, p) == |marked|;
      assert flagged[..|marked|] == marked;
    }
  }

  /** Under the model's invariants, the win test holds exactly when the open
      cells are all the cells without a mine. */
  lemma WonMeansSafeCellsOpen(openFields: seq<Point>, mines: seq<Point>, rows: nat, columns: nat, mineCount: int)
    requires Distinct(openFields) && AllInBounds(openFields, rows, columns)
    requires Distinct(mines) && AllInBounds(mines, rows, columns) && |mines| == mineCount
    requires !HitMine(openFields, mines)
    ensures Won(|openFields|, mineCount, rows, columns) <==>
      Elems(openFields) == AllCells(rows, columns) - Elems(mines)
  {
    var safe := AllCells(rows, columns) - Elems(mines);
    DistinctCount(openFields);
    DistinctCount(mines);
    AllCellsCount(rows, columns);
    forall q | q in Elems(mines) ensures q in AllCells(rows, columns) {
      InAllCells(q, rows, columns);
    }
    forall q | q in Elems(openFields) ensures q in safe {
      InAllCells(q, rows, columns);
    }
    assert AllCells(rows, columns) == safe + Elems(mines);
    SubsetCount(Elems(openFields), safe);
  }

  class Minesweeper {
    var rows: int
    var columns: int
    var mineCount: int
    var mines: seq<Point>
    var numbers: seq<CellValue>
    var openFields: seq<Point>
    var marked: seq<Point>
    var time: int
    var revealMines: bool
    /** Whether the one-second `setInterval` timer is running. */
    var clockRunning: bool

    ghost predicate Valid()
      reads this
    {
      Distinct(openFields) && AllInBounds(openFields, rows, columns) &&
      Distinct(marked) && AllInBounds(marked, rows, columns) &&
      (0 <= mineCount ==> |marked| <= mineCount) &&
      Distinct(mines) && AllInBounds(mines, rows, columns) &&
      (mines != [] ==> |mines| == mineCount && numbers == Numbers(mines, rows, columns)) &&
      (mines == [] ==> openFields == [] || mineCount == 0) &&
      (revealMines <==> HitMine(openFields, mines)) &&
      time >= 0
    }

    /** The initial state: a 10 by 10 board with 10 mines. */
    constructor ()
      ensures Valid()
      ensures rows == 10 && columns == 10 && mineCount == 10
      ensures mines == [] && numbers == [] && openFields == [] && marked == []
      ensures time == 0 && !revealMines && !clockRunning
    {
      rows, columns, mineCount := 10, 10, 10;
      mines, numbers, openFields, marked := [], [], [], [];
      time, revealMines, clockRunning := 0, false, false;
    }

    /** The counter the header shows: the mine count less the flags set. */
    function MinesLeft(): (n: int)
      reads this
      requires Valid()
      ensures 0 <= mineCount ==> 0 <= n <= mineCount
    {
      mineCount - |marked|
    }

    /** `reset`: stops the timer and clears the flags, the open cells and the
        mines; the board size and the mine count stay. */
    method Reset()
      requires Valid()
      modifies this
      ensures Valid()
      ensures rows == old(rows) && columns == old(columns) && mineCount == old(mineCount)
      ensures mines == [] && numbers == [] && openFields == [] && marked == []
      ensures time == 0 && !revealMines && !clockRunning
    {
      clockRunning := false;
      time := 0;
      marked := [];
      numbers := [];
      openFields := [];
      mines := [];
      revealMines := false;
    }

    /** `onUpdate`: resets first, then takes the new size and mine count
        unless the mine count exceeds `r * c`. */
    method Update(r: int, c: int, m: int) returns (accepted: bool)
      requires Valid()
      modifies this
      ensures Valid()
      ensures accepted <==> ConfigAccepted(r, c, m)
      ensures accepted ==> rows == r && columns == c && mineCount == m
      ensures !accepted ==> rows == old(rows) && columns == old(columns) && mineCount == old(mineCount)
      ensures mines == [] && numbers == [] && openFields == [] && marked == []
      ensures time == 0 && !revealMines && !clockRunning
    {
      Reset();
      accepted := ConfigAccepted(r, c, m);
      if accepted {
        mineCount := m;
        rows := r;
        columns := c;
      }
    }

    /** One beat of the timer. */
    method Tick()
      requires Valid()
      modifies this
      ensures Valid()
      ensures time == if old(clockRunning) then old(time) + 1 else old(time)
      ensures clockRunning == old(clockRunning)
      ensures rows == old(rows) && columns == old(columns) && mineCount == old(mineCount)
      ensures mines == old(mines) && numbers == old(numbers)
      ensures openFields == old(openFields) && marked == old(marked) && revealMines == old(revealMines)
    {
      if clockRunning {
        time := time + 1;
      }
    }

    /** A right click on `p`: ignored once a mine was hit, otherwise
        `markCell`. */
    method MarkCell(p: Point)
      requires Valid() && InBounds(p, rows, columns)
      modifies this
      ensures Valid()
      ensures marked == if old(revealMines) then old(marked)
                        else ToggleMark(old(marked), openFields, mineCount, p)
      ensures rows == old(rows) && columns == old(columns) && mineCount == old(mineCount)
      ensures mines == old(mines) && numbers == old(numbers) && openFields == old(openFields)
      ensures time == old(time) && revealMines == old(revealMines) && clockRunning == old(clockRunning)
    {
      if !revealMines {
        marked := ToggleMark(marked, openFields, mineCount, p);
        forall k | 0 <= k < |marked| ensures InBounds(marked[k], rows, columns) {
          if marked[k] != p {
            assert marked[k] in old(marked);
          }
        }
      }
    }

    /** A left click on `p`: ignored once a mine was hit; otherwise
        `startGame` (placing the mines on the first click of a game), then the
        reveal effect (a lost game on a mine, the cascade from a zero cell),
        then the win effect. `draws` stands for the values of `Math.random`;
        `finished` is false only when they ran out during placement, and then
        nothing changes. */
    method Reveal(p: Point, draws: seq<int>) returns (finished: bool)
      requires Valid() && InBounds(p, rows, columns)
      requires forall k | 0 <= k < |draws| :: 0 <= draws[k] < rows * columns
      modifies this
      ensures Valid()
      ensures rows == old(rows) && columns == old(columns) && mineCount == old(mineCount)
      ensures marked == old(marked) && old(openFields) <= openFields
      ensures !finished ==> !old(revealMines) && old(mines) == [] && unchanged(this)
      ensures old(revealMines) ==> finished && unchanged(this)
      ensures old(mines) != [] ==> mines == old(mines) && numbers == old(numbers)
      ensures finished ==> |mines| == mineCount && numbers == Numbers(mines, rows, columns)
      ensures finished && !old(revealMines) ==> time == if old(mines) == [] then 1 else old(time)
      ensures finished && !old(revealMines) ==>
        clockRunning == if openFields != old(openFields) && Won(|openFields|, mineCount, rows, columns) then false
                        else old(clockRunning) || old(mines) == []
      ensures old(mines) == [] && !old(revealMines) ==>
        (finished <==> Placed(p, columns, mineCount, draws).Some?) &&
        (finished ==> mines == Placed(p, columns, mineCount, draws).value && p !in mines && time == 1)
      ensures p in old(marked) || p in old(openFields) ==>
        openFields == old(openFields) && revealMines == old(revealMines)
      ensures finished && !old(revealMines) && p !in old(marked) && p !in old(openFields) ==>
        |openFields| > |old(openFields)| && openFields[|old(openFields)|] == p &&
        (revealMines <==> p in mines) &&
        (p in mines || Lookup(numbers, p) != Some(0) ==> openFields == old(openFields) + [p]) &&
        (forall k | |old(openFields)| < k < |openFields| :: openFields[k] !in mines) &&
        (Lookup(numbers, p) == Some(0) ==> Surrounded(p, openFields, rows, columns)) &&
        Reached(numbers, openFields, |old(openFields)| + 1, p, rows, columns) &&
        ClosedExcept(numbers, openFields, |old(openFields)|, 0, 0, rows, columns)
      ensures openFields != old(openFields) && Won(|openFields|, mineCount, rows, columns) ==> !clockRunning
    {
      finished := true;
      if revealMines {
        return;
      }
      finished := PlaceOnFirstClick(p, draws);
      if finished {
        OpenCell(p);
      }
    }

    /** The `!mines.length` branch of `startGame`: places the mines away from
        `p`, builds the adjacency list and starts the timer at 1. */
    method PlaceOnFirstClick(p: Point, draws: seq<int>) returns (finished: bool)
      requires Valid() && InBounds(p, rows, columns) && !revealMines
      requires forall k | 0 <= k < |draws| :: 0 <= draws[k] < rows * columns
      modifies this
      ensures Valid()
      ensures rows == old(rows) && columns == old(columns) && mineCount == old(mineCount)
      ensures marked == old(marked) && openFields == old(openFields) && revealMines == old(revealMines)
      ensures !finished ==> old(mines) == [] && unchanged(this)
      ensures old(mines) != [] ==> finished && unchanged(this)
      ensures finished ==> numbers == Numbers(mines, rows, columns) && (mines == [] ==> mineCount == 0)
      ensures finished && old(mines) == [] ==> p !in mines && time == 1 && clockRunning
      ensures old(mines) == [] ==>
        (finished <==> Placed(p, columns, mineCount, draws).Some?) &&
        (finished ==> mines == Placed(p, columns, mineCount, draws).value)
    {
      finished := true;
      if mines == [] {
        var placed, ok, used := PlaceMines(p, rows, columns, mineCount, draws);
        if !ok {
          finished := false;
          return;
        }
        mines := placed;
        numbers := ComputeNumbers(mines, rows, columns);
        time := 1;
        clockRunning := true;
        assert !HitMine(openFields, mines) by {
          assert openFields == [] || mines == [];
        }
      }
    }

    /** The rest of `startGame`, the reveal effect and the win effect, once the
        mines are in place. */
    method OpenCell(p: Point)
      requires Valid() && InBounds(p, rows, columns) && !revealMines
      requires numbers == Numbers(mines, rows, columns) && (mines == [] ==> mineCount == 0)
      modifies this
      ensures Valid()
      ensures rows == old(rows) && columns == old(columns) && mineCount == old(mineCount)
      ensures mines == old(mines) && numbers == old(numbers) && marked == old(marked)
      ensures time == old(time) && old(openFields) <= openFields
      ensures p in old(marked) || p in old(openFields) ==> unchanged(this)
      ensures p !in old(marked) && p !in old(openFields) ==>
        |openFields| > |old(openFields)| && openFields[|old(openFields)|] == p &&
        (revealMines <==> p in mines) &&
        (p in mines || Lookup(numbers, p) != Some(0) ==> openFields == old(openFields) + [p]) &&
        (forall k | |old(openFields)| < k < |openFields| :: openFields[k] !in mines) &&
        (Lookup(numbers, p) == Some(0) ==> Surrounded(p, openFields, rows, columns)) &&
        Reached(numbers, openFields, |old(openFields)| + 1, p, rows, columns) &&
        ClosedExcept(numbers, openFields, |old(openFields)|, 0, 0, rows, columns)
      ensures clockRunning == if openFields != old(openFields) && Won(|openFields|, mineCount, rows, columns) then false
                              else old(clockRunning)
    {
      if p in marked || p in openFields {
        return;
      }
      ghost var before := openFields;
      openFields := openFields + [p];
      HitMineAppend(before, p, mines);
      if p in mines {
        revealMines := true;
        LookupNumbers(mines, rows, columns, p);
      } else {
        var num := Lookup(numbers, p);
        if num == Some(0) {
          var result := new PointList(openFields);
          OpenNearCells(numbers, p, rows, columns, result);
          Cascaded(before, p, result.items, mines, rows, columns);
          openFields := result.items;
        }
      }
      if Won(|openFields|, mineCount, rows, columns) {
        clockRunning := false;
      }
    }
  }

  /** Opening one more cell hits a mine exactly when it or an earlier cell
      is one. */
  lemma HitMineAppend(openFields: seq<Point>, p: Point, mines: seq<Point>)
    ensures HitMine(openFields + [p], mines) <==> HitMine(openFields, mines) || p in mines
  {
    var s := openFields + [p];
    assert s[|openFields|] == p;
    if HitMine(openFields, mines) {
      var k :| 0 <= k < |openFields| && openFields[k] in mines;
      assert s[k] == openFields[k];
    }
    if HitMine(s, mines) && p !in mines {
      var k :| 0 <= k < |s| && s[k] in mines;
      assert openFields[k] == s[k];
    }
  }

  /** After the cascade from a safe cell `p`, the open cells are still board
      cells without repetition, and none of the new ones is a mine. */
  lemma Cascaded(before: seq<Point>, p: Point, after: seq<Point>, mines: seq<Point>, rows: int, columns: int)
    requires Distinct(before) && AllInBounds(before, rows, columns) && !HitMine(before, mines)
    requires InBounds(p, rows, columns) && p !in before && p !in mines
    requires GrowsFresh(before + [p], after, rows, columns)
    requires Lookup(Numbers(mines, rows, columns), p) == Some(0)
    requires Reached(Numbers(mines, rows, columns), after, |before| + 1, p, rows, columns)
    ensures Distinct(after) && AllInBounds(after, rows, columns) && !HitMine(after, mines)
    ensures forall k | |before| < k < |after| :: after[k] !in mines
  {
    var numbers := Numbers(mines, rows, columns);
    GrowsFreshKeeps(before + [p], after, rows, columns);
    forall k | |before| < k < |after| ensures after[k] !in mines {
      if after[k] !in Neighbours(p, rows, columns) {
        assert ReachedAt(numbers, after, |before| + 1, k, p, rows, columns);
        var j :| |before| + 1 <= j < k && Lookup(numbers, after[j]) == Some(0) && after[k] in Neighbours(after[j], rows, columns);
      }
      BordersZeroIsSafe(mines, rows, columns, after[k]);
    }
    forall k | 0 <= k <= |before| ensures after[k] !in mines {
      assert after[k] == (before + [p])[k];
    }
  }
}
