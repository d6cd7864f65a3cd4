/** The adjacency effect of App.tsx: for every cell that is not a mine, an
    entry `{x, y, value}` whose value is the number of neighbouring mines. */
module Adjacency {
  import opened Grid

  /** One entry `{x, y, value}` of `numbers`. */
  datatype CellValue = CellValue(x: int, y: int, value: int)

  function At(e: CellValue): Point
  {
    Point(e.x, e.y)
  }

  /** The value of the first entry of `numbers` for `p`, if any, as a linear
      `find` over the list returns it. */
  function Lookup(numbers: seq<CellValue>, p: Point): Option<int>
  {
    if numbers == [] then None
    else if At(numbers[0]) == p then Some(numbers[0].value)
    else Lookup(numbers[1..], p)
  }

  /** A value found by `Lookup` belongs to an entry for that cell. */
  lemma {:induction false} LookupFound(numbers: seq<CellValue>, p: Point)
    requires Lookup(numbers, p).Some?
    ensures exists k :: 0 <= k < |numbers| && At(numbers[k]) == p && numbers[k].value == Lookup(numbers, p).value
  {
    if At(numbers[0]) != p {
      LookupFound(numbers[1..], p);
      var k :| 0 <= k < |numbers[1..]| && At(numbers[1..][k]) == p && numbers[1..][k].value == Lookup(numbers, p).value;
      assert numbers[k + 1] == numbers[1..][k];
    }
  }

  /** How many cells of `cands` hold a mine. */
  function CountIn(cands: seq<Point>, mines: seq<Point>): (n: nat)
    ensures n <= |cands|
  {
    if cands == [] then 0
    else CountIn(cands[..|cands| - 1], mines) + (if cands[|cands| - 1] in mines then 1 else 0)
  }

  /** The mines among the in-bounds cells adjacent to `p`. */
  function MineNeighbours(p: Point, mines: seq<Point>, rows: int, columns: int): set<Point>
  {
    set q | q in AllCells(rows, columns) && Adjacent(p, q) && q in mines
  }

  function Height(rows: int): nat
  {
    if rows < 0 then 0 else rows
  }

  /** Column-major order of the loops: column first, then row. */
  predicate Before(p: Point, q: Point)
  {
    p.x < q.x || (p.x == q.x && p.y < q.y)
  }

  /** `numbers` once the loops have handled every column below `i` and the
      rows below `j` of column `i`. */
  function NumbersUpTo(mines: seq<Point>, rows: int, columns: int, i: nat, j: nat): seq<CellValue>
    requires j <= Height(rows)
    decreases i, j
  {
    if j == 0 then
      if i == 0 then [] else NumbersUpTo(mines, rows, columns, i - 1, Height(rows))
    else
      var before := NumbersUpTo(mines, rows, columns, i, j - 1);
      var p := Point(i, j - 1);
      if p in mines then before
      else before + [CellValue(i, j - 1, CountIn(Neighbours(p, rows, columns), mines))]
  }

  /** The adjacency list the effect builds for `mines`. */
  function Numbers(mines: seq<Point>, rows: int, columns: int): seq<CellValue>
  {
    NumbersUpTo(mines, rows, columns, Height(columns), 0)
  }

  /** Counting the mines among distinct candidates counts a set. */
  lemma {:induction false} CountInSet(cands: seq<Point>, mines: seq<Point>)
    requires Distinct(cands)
    ensures CountIn(cands, mines) == |set q | q in cands && q in mines|
  {
    if cands != [] {
      var init := cands[..|cands| - 1];
      var last := cands[|cands| - 1];
      CountInSet(init, mines);
      var before := set q | q in init && q in mines;
      assert last !in before;
      if last in mines {
        assert (set q | q in cands && q in mines) == before + {last};
      } else {
        assert (set q | q in cands && q in mines) == before;
      }
    }
  }

  /** Counting along the eight guarded candidates counts the mines adjacent
      to the cell, which are at most eight. */
  lemma CountIsMineNeighbours(p: Point, mines: seq<Point>, rows: int, columns: int)
    requires InBounds(p, rows, columns)
    ensures CountIn(Neighbours(p, rows, columns), mines) == |MineNeighbours(p, mines, rows, columns)| <= 8
  {
    var ns := Neighbours(p, rows, columns);
    CountInSet(ns, mines);
    NeighboursExact(p, rows, columns);
    forall q ensures q in MineNeighbours(p, mines, rows, columns) <==> q in ns && q in mines {
      InAllCells(q, rows, columns);
    }
    assert MineNeighbours(p, mines, rows, columns) == set q | q in ns && q in mines;
  }

  /** Counts the mines around `p`, one guarded candidate at a time. */
  method CountMineNeighbours(p: Point, mines: seq<Point>, rows: int, columns: int) returns (count: nat)
    requires InBounds(p, rows, columns)
    ensures count == |MineNeighbours(p, mines, rows, columns)| <= 8
  {
    var ns := Neighbours(p, rows, columns);
    count := 0;
    for k := 0 to |ns|
      invariant count == CountIn(ns[..k], mines)
    {
      assert ns[..k + 1][..k] == ns[..k];
      if ns[k] in mines {
        count := count + 1;
      }
    }
    assert ns[..|ns|] == ns;
    CountIsMineNeighbours(p, mines, rows, columns);
  }

  lemma {:induction false} LookupAppend(s: seq<CellValue>, e: CellValue, p: Point)
    ensures Lookup(s + [e], p) ==
      if Lookup(s, p).Some? then Lookup(s, p) else if At(e) == p then Some(e.value) else None
  {
    if s != [] {
      assert (s + [e])[1..] == s[1..] + [e];
      LookupAppend(s[1..], e, p);
    }
  }

  /** Every entry of `s` is a board cell without a mine that comes before
      `bound`, and its value is its mine count. */
  predicate EntriesBefore(s: seq<CellValue>, mines: seq<Point>, rows: int, columns: int, bound: Point)
  {
    forall k | 0 <= k < |s| ::
      InBounds(At(s[k]), rows, columns) && At(s[k]) !in mines && Before(At(s[k]), bound) &&
      s[k].value == CountIn(Neighbours(At(s[k]), rows, columns), mines)
  }

  /** The entries of `s` follow the loops' column-major order. */
  predicate Ordered(s: seq<CellValue>)
  {
    forall a, b | 0 <= a < b < |s| :: Before(At(s[a]), At(s[b]))
  }

  /** Every entry so far is a board cell without a mine that the loops have
      passed, carries its mine count, and comes after every earlier entry. */
  lemma {:induction false} EntriesUpTo(mines: seq<Point>, rows: int, columns: int, i: nat, j: nat)
    requires j <= Height(rows)
    requires i < Height(columns) || (i == Height(columns) && j == 0)
    ensures EntriesBefore(NumbersUpTo(mines, rows, columns, i, j), mines, rows, columns, Point(i, j))
    ensures Ordered(NumbersUpTo(mines, rows, columns, i, j))
    decreases i, j
  {
    if j == 0 {
      if i > 0 {
        EntriesUpTo(mines, rows, columns, i - 1, Height(rows));
      }
    } else {
      EntriesUpTo(mines, rows, columns, i, j - 1);
      var before := NumbersUpTo(mines, rows, columns, i, j - 1);
      var q := Point(i, j - 1);
      if q !in mines {
        var e := CellValue(i, j - 1, CountIn(Neighbours(q, rows, columns), mines));
        var now := before + [e];
        assert now == NumbersUpTo(mines, rows, columns, i, j);
        forall k | 0 <= k < |now|
          ensures InBounds(At(now[k]), rows, columns) && At(now[k]) !in mines && Before(At(now[k]), Point(i, j))
          ensures now[k].value == CountIn(Neighbours(At(now[k]), rows, columns), mines)
        {
          if k < |before| { assert now[k] == before[k]; }
        }
        forall a, b | 0 <= a < b < |now| ensures Before(At(now[a]), At(now[b])) {
          assert now[a] == before[a];
          if b < |before| { assert now[b] == before[b]; }
        }
      }
    }
  }

  /** Looking a board cell up in the list so far finds its mine count exactly
      when the loops have passed it and it is not a mine. */
  lemma {:induction false} LookupUpTo(mines: seq<Point>, rows: int, columns: int, i: nat, j: nat, p: Point)
    requires j <= Height(rows)
    requires InBounds(p, rows, columns)
    ensures Lookup(NumbersUpTo(mines, rows, columns, i, j), p) ==
      if Before(p, Point(i, j)) && p !in mines
      then Some(CountIn(Neighbours(p, rows, columns), mines)) else None
    decreases i, j
  {
    if j == 0 {
      if i > 0 {
        LookupUpTo(mines, rows, columns, i - 1, Height(rows), p);
      }
    } else {
      LookupUpTo(mines, rows, columns, i, j - 1, p);
      var q := Point(i, j - 1);
      if q !in mines {
        LookupAppend(NumbersUpTo(mines, rows, columns, i, j - 1),
                     CellValue(i, j - 1, CountIn(Neighbours(q, rows, columns), mines)), p);
      }
    }
  }

  /** The finished list has an entry for a board cell exactly when the cell is
      not a mine, and that entry's value is the number of adjacent mines. */
  lemma LookupNumbers(mines: seq<Point>, rows: int, columns: int, p: Point)
    requires InBounds(p, rows, columns)
    ensures Lookup(Numbers(mines, rows, columns), p) ==
      if p in mines then None else Some(|MineNeighbours(p, mines, rows, columns)|)
  {
    LookupUpTo(mines, rows, columns, Height(columns), 0, p);
    CountIsMineNeighbours(p, mines, rows, columns);
  }

  /** With no mines the adjacency list gives every board cell the value 0. */
  lemma NoMinesAllZero(mines: seq<Point>, rows: int, columns: int, p: Point)
    requires mines == [] && InBounds(p, rows, columns)
    ensures Lookup(Numbers(mines, rows, columns), p) == Some(0)
  {
    LookupNumbers(mines, rows, columns, p);
    assert MineNeighbours(p, mines, rows, columns) == {};
  }

  /** The nested loops of the adjacency effect: columns outside, rows inside,
      mine cells skipped. */
  method ComputeNumbers(mines: seq<Point>, rows: int, columns: int) returns (numbers: seq<CellValue>)
    ensures numbers == Numbers(mines, rows, columns)
    ensures forall p | InBounds(p, rows, columns) ::
      Lookup(numbers, p) == if p in mines then None else Some(|MineNeighbours(p, mines, rows, columns)|)
    ensures forall k | 0 <= k < |numbers| ::
      InBounds(At(numbers[k]), rows, columns) && At(numbers[k]) !in mines && 0 <= numbers[k].value <= 8
    ensures forall a, b | 0 <= a < b < |numbers| :: At(numbers[a]) != At(numbers[b])
  {
    numbers := [];
    var i := 0;
    while i < columns
      invariant 0 <= i <= Height(columns)
      invariant numbers == NumbersUpTo(mines, rows, columns, i, 0)
    {
      var j := 0;
      while j < rows
        invariant 0 <= j <= Height(rows)
        invariant numbers == NumbersUpTo(mines, rows, columns, i, j)
      {
        var p := Point(i, j);
        if p !in mines {
          var count := CountMineNeighbours(p, mines, rows, columns);
          CountIsMineNeighbours(p, mines, rows, columns);
          numbers := numbers + [CellValue(i, j, count)];
        }
        j := j + 1;
      }
      i := i + 1;
    }
    NumbersFacts(mines, rows, columns);
  }

  /** The properties of the finished list that `ComputeNumbers` promises. */
  lemma NumbersFacts(mines: seq<Point>, rows: int, columns: int)
    ensures var s := Numbers(mines, rows, columns);
      forall p | InBounds(p, rows, columns) ::
        Lookup(s, p) == if p in mines then None else Some(|MineNeighbours(p, mines, rows, columns)|)
    ensures var s := Numbers(mines, rows, columns);
      forall k | 0 <= k < |s| ::
        InBounds(At(s[k]), rows, columns) && At(s[k]) !in mines && 0 <= s[k].value <= 8
    ensures var s := Numbers(mines, rows, columns);
      forall a, b | 0 <= a < b < |s| :: At(s[a]) != At(s[b])
  {
    var s := Numbers(mines, rows, columns);
    assert s == NumbersUpTo(mines, rows, columns, Height(columns), 0);
    forall p | InBounds(p, rows, columns)
      ensures Lookup(s, p) == if p in mines then None else Some(|MineNeighbours(p, mines, rows, columns)|)
    {
      LookupNumbers(mines, rows, columns, p);
    }
    EntriesUpTo(mines, rows, columns, Height(columns), 0);
    forall k | 0 <= k < |s| ensures 0 <= s[k].value <= 8 {
      CountIsMineNeighbours(At(s[k]), mines, rows, columns);
    }
  }
}
