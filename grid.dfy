/** Board geometry: cells, their integer ids and their in-bounds 8-neighbourhood. */
module Grid {

  /** A board cell `{x, y}`: `x` is the column, `y` the row. */
  datatype Point = Point(x: int, y: int)

  datatype Option<T> = None | Some(value: T)

  predicate InBounds(p: Point, rows: int, columns: int)
  {
    0 <= p.x < columns && 0 <= p.y < rows
  }

  predicate AllInBounds(s: seq<Point>, rows: int, columns: int)
  {
    forall k | 0 <= k < |s| :: InBounds(s[k], rows, columns)
  }

  predicate Distinct<T(==)>(s: seq<T>)
  {
    forall a, b | 0 <= a < b < |s| :: s[a] != s[b]
  }

  function Elems<T>(s: seq<T>): set<T>
  {
    set v | v in s
  }

  /** Two different cells at Chebyshev distance one. */
  predicate Adjacent(p: Point, q: Point)
  {
    p != q && -1 <= p.x - q.x <= 1 && -1 <= p.y - q.y <= 1
  }

  /** Every cell of a `rows` by `columns` board. */
  function AllCells(rows: int, columns: int): set<Point>
  {
    set x, y | 0 <= x < columns && 0 <= y < rows :: Point(x, y)
  }

  /** The integers `0 .. n-1`, the ids of a board with `n` cells. */
  function Range(n: int): (r: set<int>)
    ensures forall i :: i in r <==> 0 <= i < n
  {
    if n <= 0 then {} else Range(n - 1) + {n - 1}
  }

  /** The cells of row `y`. */
  function Row(y: int, columns: int): set<Point>
  {
    set x | 0 <= x < columns :: Point(x, y)
  }

  /** Cell id used by mine placement: `x + y * columns`. */
  function Encode(p: Point, columns: int): int
  {
    p.x + p.y * columns
  }

  /** Inverse of `Encode`: `(id % columns, floor(id / columns))`. For the
      non-negative ids placement draws, JavaScript's `%` and `Math.floor`
      agree with Dafny's Euclidean `%` and `/`. */
  function Decode(id: int, columns: int): Point
    requires columns > 0
  {
    Point(id % columns, id / columns)
  }

  /** The candidate neighbours of `p`, each behind the same bounds test and in
      the same order as in `openNearCells` and in the adjacency effect. */
  function Neighbours(p: Point, rows: int, columns: int): (ns: seq<Point>)
    ensures |ns| <= 8 && Distinct(ns)
  {
    var x, y := p.x, p.y;
    var above :=
      (if x != 0 && y != 0 then [Point(x - 1, y - 1)] else []) +
      (if y != 0 then [Point(x, y - 1)] else []) +
      (if x != columns - 1 && y != 0 then [Point(x + 1, y - 1)] else []);
    var level :=
      (if x != 0 then [Point(x - 1, y)] else []) +
      (if x != columns - 1 then [Point(x + 1, y)] else []);
    var below :=
      (if x != 0 && y != rows - 1 then [Point(x - 1, y + 1)] else []) +
      (if y != rows - 1 then [Point(x, y + 1)] else []) +
      (if x != columns - 1 && y != rows - 1 then [Point(x + 1, y + 1)] else []);
    DistinctRows(above, level, below, y);
    above + level + below
  }

  /** Three repetition-free lists of cells on three different rows make a
      repetition-free list. */
  lemma DistinctRows(above: seq<Point>, level: seq<Point>, below: seq<Point>, y: int)
    requires Distinct(above) && Distinct(level) && Distinct(below)
    requires forall q | q in above :: q.y == y - 1
    requires forall q | q in level :: q.y == y
    requires forall q | q in below :: q.y == y + 1
    ensures Distinct(above + level + below)
  {
    var s := above + level + below;
    forall a, b | 0 <= a < b < |s| ensures s[a] != s[b] {
      if b < |above| {
        assert s[a] == above[a] && s[b] == above[b];
      } else if b < |above| + |level| {
        assert s[b] == level[b - |above|];
        if a >= |above| { assert s[a] == level[a - |above|]; }
        else { assert s[a] == above[a]; }
      } else {
        assert s[b] == below[b - |above| - |level|];
        if a >= |above| + |level| { assert s[a] == below[a - |above| - |level|]; }
        else if a >= |above| { assert s[a] == level[a - |above|]; }
        else { assert s[a] == above[a]; }
      }
    }
  }

  /** For a cell on the board, the guarded candidates are exactly its
      in-bounds neighbours at Chebyshev distance one. */
  lemma NeighboursExact(p: Point, rows: int, columns: int)
    requires InBounds(p, rows, columns)
    ensures forall q :: q in Neighbours(p, rows, columns) <==> InBounds(q, rows, columns) && Adjacent(p, q)
  {
    var ns := Neighbours(p, rows, columns);
    forall q
      ensures q in ns <==> InBounds(q, rows, columns) && Adjacent(p, q)
    {
      if InBounds(q, rows, columns) && Adjacent(p, q) {
        var dx, dy := q.x - p.x, q.y - p.y;
        assert q == Point(p.x + dx, p.y + dy);
      }
    }
  }

  lemma InAllCells(p: Point, rows: int, columns: int)
    ensures p in AllCells(rows, columns) <==> InBounds(p, rows, columns)
  {
    if InBounds(p, rows, columns) {
      assert p == Point(p.x, p.y);
    }
  }

  /** `q * c + r` with `0 <= r < c` has quotient `q` and remainder `r`. */
  lemma DivModOf(a: int, c: int, q: int, r: int)
    requires c > 0 && 0 <= r < c && a == q * c + r
    ensures a / c == q && a % c == r
  {
    var q', r' := a / c, a % c;
    assert a == q' * c + r';
    if q' < q {
      assert (q - q') * c >= c by { MulAtLeast(q - q', c); }
      assert false;
    } else if q < q' {
      assert (q' - q) * c >= c by { MulAtLeast(q' - q, c); }
      assert false;
    }
  }

  lemma MulAtLeast(d: int, c: int)
    requires d >= 1 && c >= 0
    ensures d * c >= c
  {
  }

  /** Encoding a cell on the board gives an id below `rows * columns`, and
      decoding that id gives the cell back. */
  lemma DecodeEncode(p: Point, rows: int, columns: int)
    requires InBounds(p, rows, columns)
    ensures 0 <= Encode(p, columns) < rows * columns
    ensures Decode(Encode(p, columns), columns) == p
  {
    assert p.y * columns <= (rows - 1) * columns by { MulMono(p.y, rows - 1, columns); }
    DivModOf(Encode(p, columns), columns, p.y, p.x);
  }

  lemma MulMono(a: int, b: int, c: int)
    requires a <= b && c >= 0
    ensures a * c <= b * c
  {
  }

  /** Every id below `rows * columns` decodes to a cell on the board that
      encodes back to the same id. */
  lemma EncodeDecode(id: int, rows: int, columns: int)
    requires columns > 0 && 0 <= id < rows * columns
    ensures InBounds(Decode(id, columns), rows, columns)
    ensures Encode(Decode(id, columns), columns) == id
  {
    var p := Decode(id, columns);
    assert id == p.y * columns + p.x;
  }

  /** Different non-negative ids decode to different cells. */
  lemma DecodeInjective(a: int, b: int, columns: int)
    requires columns > 0 && 0 <= a && 0 <= b && a != b
    ensures Decode(a, columns) != Decode(b, columns)
  {
    assert a == Encode(Decode(a, columns), columns);
    assert b == Encode(Decode(b, columns), columns);
  }

  /** A board of `rows` by `columns` cells has `rows * columns` cells. */
  lemma {:induction false} AllCellsCount(rows: nat, columns: nat)
    ensures |AllCells(rows, columns)| == rows * columns
  {
    if rows > 0 {
      AllCellsSplit(rows, columns);
      RowCount(rows - 1, columns);
      AllCellsCount(rows - 1, columns);
      assert |AllCells(rows, columns)| == (rows - 1) * columns + columns;
      assert rows * columns == (rows - 1) * columns + columns;
    }
  }

  /** A board is the board one row shorter plus its last row. */
  lemma AllCellsSplit(rows: int, columns: int)
    requires rows > 0
    ensures AllCells(rows, columns) == AllCells(rows - 1, columns) + Row(rows - 1, columns)
    ensures AllCells(rows - 1, columns) !! Row(rows - 1, columns)
  {
    var row := Row(rows - 1, columns);
    forall p | p in AllCells(rows, columns)
      ensures p in AllCells(rows - 1, columns) + row
    {
      InAllCells(p, rows, columns);
      InAllCells(p, rows - 1, columns);
      if p.y == rows - 1 { assert p == Point(p.x, rows - 1); }
    }
    forall p | p in row ensures p !in AllCells(rows - 1, columns) {
      InAllCells(p, rows - 1, columns);
    }
  }

  lemma {:induction false} RowCount(y: int, columns: nat)
    ensures |Row(y, columns)| == columns
  {
    if columns > 0 {
      assert Row(y, columns) == Row(y, columns - 1) + {Point(columns - 1, y)};
      RowCount(y, columns - 1);
    }
  }

  /** There are `n` ids below `n`. */
  lemma {:induction false} RangeCount(n: nat)
    ensures |Range(n)| == n
  {
    if n > 0 {
      RangeCount(n - 1);
    }
  }

  /** A sequence without repetitions has as many elements as its set. */
  lemma {:induction false} DistinctCount<T>(s: seq<T>)
    requires Distinct(s)
    ensures |Elems(s)| == |s|
  {
    if s != [] {
      var init := s[..|s| - 1];
      assert Elems(s) == Elems(init) + {s[|s| - 1]};
      assert s[|s| - 1] !in Elems(init);
      DistinctCount(init);
    }
  }

  lemma SubsetCount<T>(a: set<T>, b: set<T>)
    requires a <= b
    ensures |a| <= |b|
    ensures |a| == |b| ==> a == b
  {
    assert b == a + (b - a);
  }
}
