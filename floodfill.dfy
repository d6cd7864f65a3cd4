/** `openNearCells`: the recursive cascade that opens the neighbours of a
    cell whose adjacency value is 0, pushing into a shared result list. */
module FloodFill {
  import opened Grid
  import opened Adjacency

  /** The mutable `result` array that `openNearCells` pushes into. */
  class PointList {
    var items: seq<Point>

    constructor (items: seq<Point>)
      ensures this.items == items
    {
      this.items := items;
    }
  }

  /** The candidates not yet in `cells`, in order: `toCheck`. */
  function Unlisted(cands: seq<Point>, cells: seq<Point>): (r: seq<Point>)
    ensures forall q :: q in r <==> q in cands && q !in cells
    ensures Distinct(cands) ==> Distinct(r)
  {
    if cands == [] then []
    else (if cands[0] in cells then [] else [cands[0]]) + Unlisted(cands[1..], cells)
  }

  /** `after` is `before` followed by in-bounds cells, each different from
      every cell listed before it. */
  predicate GrowsFresh(before: seq<Point>, after: seq<Point>, rows: int, columns: int)
  {
    before <= after &&
    (forall k | |before| <= k < |after| :: InBounds(after[k], rows, columns)) &&
    (forall a, b | 0 <= a < b < |after| && |before| <= b :: after[a] != after[b])
  }

  /** Every in-bounds neighbour of `p` is in `cells`. */
  predicate Surrounded(p: Point, cells: seq<Point>, rows: int, columns: int)
  {
    forall q | q in Neighbours(p, rows, columns) :: q in cells
  }

  /** `q` is a neighbour of some cell whose adjacency value is 0. */
  ghost predicate BordersZero(numbers: seq<CellValue>, q: Point, rows: int, columns: int)
  {
    exists z :: q in Neighbours(z, rows, columns) && Lookup(numbers, z) == Some(0)
  }

  /** A list that holds every neighbour of `p` still does once extended. */
  lemma SurroundedGrows(p: Point, before: seq<Point>, after: seq<Point>, rows: int, columns: int)
    requires before <= after && Surrounded(p, before, rows, columns)
    ensures Surrounded(p, after, rows, columns)
  {
    forall n | n in Neighbours(p, rows, columns) ensures n in after {
      var k :| 0 <= k < |before| && before[k] == n;
      assert after[k] == n;
    }
  }

  lemma GrowsFreshTrans(a: seq<Point>, b: seq<Point>, c: seq<Point>, rows: int, columns: int)
    requires GrowsFresh(a, b, rows, columns) && GrowsFresh(b, c, rows, columns)
    ensures GrowsFresh(a, c, rows, columns)
  {
    forall k | |a| <= k < |c| ensures InBounds(c[k], rows, columns) {
      if k < |b| { assert c[k] == b[k]; }
    }
    forall i, j | 0 <= i < j < |c| && |a| <= j ensures c[i] != c[j] {
      if j < |b| { assert c[i] == b[i] && c[j] == b[j]; }
    }
  }

  /** Fresh growth of a repetition-free list of board cells keeps it so. */
  lemma GrowsFreshKeeps(before: seq<Point>, after: seq<Point>, rows: int, columns: int)
    requires GrowsFresh(before, after, rows, columns)
    requires Distinct(before) && AllInBounds(before, rows, columns)
    ensures Distinct(after) && AllInBounds(after, rows, columns)
  {
    forall k | 0 <= k < |before| ensures after[k] == before[k] { }
  }

  /** Appending at least one fresh board cell leaves fewer board cells
      unlisted. */
  lemma FewerUnlisted(rows: int, columns: int, before: seq<Point>, after: seq<Point>)
    requires GrowsFresh(before, after, rows, columns) && |before| < |after|
    ensures |AllCells(rows, columns) - Elems(after)| < |AllCells(rows, columns) - Elems(before)|
  {
    var q := after[|before|];
    assert q !in before by {
      forall k | 0 <= k < |before| ensures before[k] != q {
        assert before[k] == after[k];
      }
    }
    assert Elems(before) <= Elems(after) by {
      forall x | x in before ensures x in after {
        var k :| 0 <= k < |before| && before[k] == x;
        assert after[k] == x;
      }
    }
    InAllCells(q, rows, columns);
    var all := AllCells(rows, columns);
    assert all - Elems(after) <= (all - Elems(before)) - {q};
    SubsetCount(all - Elems(after), (all - Elems(before)) - {q});
  }

  /** The first push: the unlisted neighbours of `p` are fresh board cells,
      each reached as a neighbour of `p`, and afterwards every neighbour of `p`
      is listed. */
  lemma FirstPush(numbers: seq<CellValue>, p: Point, rows: int, columns: int, items: seq<Point>)
    requires InBounds(p, rows, columns) && Lookup(numbers, p) == Some(0)
    ensures var toCheck := Unlisted(Neighbours(p, rows, columns), items);
      GrowsFresh(items, items + toCheck, rows, columns) &&
      Surrounded(p, items + toCheck, rows, columns) &&
      Reached(numbers, items + toCheck, |items|, p, rows, columns)
  {
    var ns := Neighbours(p, rows, columns);
    var toCheck := Unlisted(ns, items);
    var after := items + toCheck;
    NeighboursExact(p, rows, columns);
    forall k | |items| <= k < |after|
      ensures InBounds(after[k], rows, columns) && ReachedAt(numbers, after, |items|, k, p, rows, columns)
    {
      assert after[k] == toCheck[k - |items|];
      assert after[k] in toCheck;
    }
    forall a, b | 0 <= a < b < |after| && |items| <= b ensures after[a] != after[b] {
      assert after[b] == toCheck[b - |items|];
      if |items| <= a { assert after[a] == toCheck[a - |items|]; }
    }
    forall q | q in ns ensures q in after {
      if q !in items {
        assert q in toCheck;
      }
    }
  }

  /** Every cell listed from index `from` on was reached by the cascade from
      `p`: it is a neighbour of `p`, or of a zero cell listed before it, also
      from index `from` on. */
  predicate Reached(numbers: seq<CellValue>, cells: seq<Point>, from: nat, p: Point, rows: int, columns: int)
  {
    forall k | from <= k < |cells| :: ReachedAt(numbers, cells, from, k, p, rows, columns)
  }

  /** The cell at index `k` is a neighbour of `p`, or of a zero cell listed
      at an index from `from` up to `k`. */
  predicate ReachedAt(numbers: seq<CellValue>, cells: seq<Point>, from: nat, k: nat, p: Point, rows: int, columns: int)
    requires k < |cells|
  {
    cells[k] in Neighbours(p, rows, columns) ||
    exists j | from <= j < k :: Lookup(numbers, cells[j]) == Some(0) && cells[k] in Neighbours(cells[j], rows, columns)
  }

  /** Every zero cell listed from index `from` on, except those at indices
      `lo .. hi-1`, has all its neighbours listed. */
  predicate ClosedExcept(numbers: seq<CellValue>, cells: seq<Point>, from: nat, lo: nat, hi: nat, rows: int, columns: int)
  {
    forall k | from <= k < |cells| && !(lo <= k < hi) ::
      Lookup(numbers, cells[k]) == Some(0) ==> Surrounded(cells[k], cells, rows, columns)
  }

  /** Handling `toCheck[i]` (at index `lo` of the list) keeps the loop's
      invariants, whether or not it cascaded from it. */
  lemma CascadeStep(numbers: seq<CellValue>, from: nat, lo: nat, hi: nat, q: Point,
                    before: seq<Point>, after: seq<Point>, rows: int, columns: int)
    requires from <= lo < hi <= |before| && before <= after && before[lo] == q
    requires ClosedExcept(numbers, before, from, lo, hi, rows, columns)
    requires ClosedExcept(numbers, after, |before|, 0, 0, rows, columns)
    requires Lookup(numbers, q) == Some(0) ==> Surrounded(q, after, rows, columns)
    ensures ClosedExcept(numbers, after, from, lo + 1, hi, rows, columns)
  {
    forall k | from <= k < |after|
      ensures !(lo + 1 <= k < hi) && Lookup(numbers, after[k]) == Some(0) ==> Surrounded(after[k], after, rows, columns)
    {
      if k < |before| {
        assert after[k] == before[k];
        if k != lo && Lookup(numbers, after[k]) == Some(0) && !(lo <= k < hi) {
          assert Surrounded(before[k], before, rows, columns);
        }
      }
    }
  }

  /** A cascade from the zero cell `q`, at index `lo` of `before`, appended
      after `before` keeps every cell from index `from` on reached from `p`. */
  lemma ReachedStep(numbers: seq<CellValue>, from: nat, lo: nat, p: Point, q: Point,
                    before: seq<Point>, after: seq<Point>, rows: int, columns: int)
    requires from <= lo < |before| && before <= after && before[lo] == q
    requires Lookup(numbers, q) == Some(0)
    requires Reached(numbers, before, from, p, rows, columns)
    requires Reached(numbers, after, |before|, q, rows, columns)
    ensures Reached(numbers, after, from, p, rows, columns)
  {
    forall k | from <= k < |after| && after[k] !in Neighbours(p, rows, columns)
      ensures exists j | from <= j < k ::
        Lookup(numbers, after[j]) == Some(0) && after[k] in Neighbours(after[j], rows, columns)
    {
      if k < |before| {
        assert after[k] == before[k];
        assert ReachedAt(numbers, before, from, k, p, rows, columns);
        var j :| from <= j < k && Lookup(numbers, before[j]) == Some(0) && before[k] in Neighbours(before[j], rows, columns);
        assert after[j] == before[j];
      } else if after[k] in Neighbours(before[lo], rows, columns) {
        assert after[lo] == before[lo];
      } else {
        assert ReachedAt(numbers, after, |before|, k, before[lo], rows, columns);
        var j :| |before| <= j < k && Lookup(numbers, after[j]) == Some(0) && after[k] in Neighbours(after[j], rows, columns);
      }
    }
  }

  /** One round of the loop over the pushed neighbours of `p`: handling `q`,
      at index `lo`, by cascading from it when its value is 0 and leaving the
      list as it is otherwise, keeps the loop's invariants with `lo` done. */
  lemma LoopStep(numbers: seq<CellValue>, p: Point, q: Point, start: seq<Point>, base: seq<Point>,
                 before: seq<Point>, after: seq<Point>, lo: nat, rows: int, columns: int)
    requires |start| <= lo < |base| && base <= before && before[lo] == q
    requires GrowsFresh(start, before, rows, columns) && Surrounded(p, before, rows, columns)
    requires Reached(numbers, before, |start|, p, rows, columns)
    requires ClosedExcept(numbers, before, |start|, lo, |base|, rows, columns)
    requires Lookup(numbers, q) == Some(0) ==>
      GrowsFresh(before, after, rows, columns) && Surrounded(q, after, rows, columns) &&
      Reached(numbers, after, |before|, q, rows, columns) &&
      ClosedExcept(numbers, after, |before|, 0, 0, rows, columns)
    requires Lookup(numbers, q) != Some(0) ==> after == before
    ensures base <= after && GrowsFresh(start, after, rows, columns) && Surrounded(p, after, rows, columns)
    ensures Reached(numbers, after, |start|, p, rows, columns)
    ensures ClosedExcept(numbers, after, |start|, lo + 1, |base|, rows, columns)
  {
    if Lookup(numbers, q) == Some(0) {
      GrowsFreshTrans(start, before, after, rows, columns);
      SurroundedGrows(p, before, after, rows, columns);
      ReachedStep(numbers, |start|, lo, p, q, before, after, rows, columns);
    }
    CascadeStep(numbers, |start|, lo, |base|, q, before, after, rows, columns);
  }

  /** Every cell a reached list appends after `before` is also in any list
      that extends `before`, holds the neighbours of `p` and is closed over its
      own appended zero cells. */
  lemma {:induction false} ReachedWithin(numbers: seq<CellValue>, p: Point, before: seq<Point>,
                                         a: seq<Point>, b: seq<Point>, k: nat, rows: int, columns: int)
    requires GrowsFresh(before, a, rows, columns) && before <= b
    requires Reached(numbers, a, |before|, p, rows, columns)
    requires Surrounded(p, b, rows, columns)
    requires ClosedExcept(numbers, b, |before|, 0, 0, rows, columns)
    requires |before| <= k < |a|
    ensures a[k] in b
    decreases k
  {
    if a[k] !in Neighbours(p, rows, columns) {
      assert ReachedAt(numbers, a, |before|, k, p, rows, columns);
      var j :| |before| <= j < k && Lookup(numbers, a[j]) == Some(0) && a[k] in Neighbours(a[j], rows, columns);
      ReachedWithin(numbers, p, before, a, b, j, rows, columns);
      var m :| 0 <= m < |b| && b[m] == a[j];
      assert Surrounded(b[m], b, rows, columns);
    }
  }

  /** Freshness, reachability from `p` and closure fix the cells a cascade
      appends: two lists that both meet them hold the same cells. */
  lemma CascadeUnique(numbers: seq<CellValue>, p: Point, before: seq<Point>,
                      a: seq<Point>, b: seq<Point>, rows: int, columns: int)
    requires GrowsFresh(before, a, rows, columns) && GrowsFresh(before, b, rows, columns)
    requires Reached(numbers, a, |before|, p, rows, columns) && Reached(numbers, b, |before|, p, rows, columns)
    requires Surrounded(p, a, rows, columns) && Surrounded(p, b, rows, columns)
    requires ClosedExcept(numbers, a, |before|, 0, 0, rows, columns)
    requires ClosedExcept(numbers, b, |before|, 0, 0, rows, columns)
    ensures Elems(a) == Elems(b)
  {
    forall x | x in a ensures x in b {
      var k :| 0 <= k < |a| && a[k] == x;
      if k < |before| {
        assert a[k] == before[k] == b[k];
      } else {
        ReachedWithin(numbers, p, before, a, b, k, rows, columns);
      }
    }
    forall x | x in b ensures x in a {
      var k :| 0 <= k < |b| && b[k] == x;
      if k < |before| {
        assert b[k] == before[k] == a[k];
      } else {
        ReachedWithin(numbers, p, before, b, a, k, rows, columns);
      }
    }
  }

  /** Opens, into `result`, every in-bounds neighbour of `p` not yet listed,
      then cascades from those whose adjacency value is 0. */
  method OpenNearCells(numbers: seq<CellValue>, p: Point, rows: int, columns: int, result: PointList)
    requires InBounds(p, rows, columns)
    requires Lookup(numbers, p) == Some(0)
    modifies result
    ensures GrowsFresh(old(result.items), result.items, rows, columns)
    ensures Surrounded(p, result.items, rows, columns)
    ensures Reached(numbers, result.items, |old(result.items)|, p, rows, columns)
    ensures ClosedExcept(numbers, result.items, |old(result.items)|, 0, 0, rows, columns)
    decreases |AllCells(rows, columns) - Elems(result.items)|
  {
    var toCheck := Unlisted(Neighbours(p, rows, columns), result.items);
    ghost var start := result.items;
    FirstPush(numbers, p, rows, columns, start);
    result.items := result.items + toCheck;
    ghost var base := result.items;
    for i := 0 to |toCheck|
      invariant base <= result.items
      invariant GrowsFresh(start, result.items, rows, columns)
      invariant Surrounded(p, result.items, rows, columns)
      invariant Reached(numbers, result.items, |start|, p, rows, columns)
      invariant ClosedExcept(numbers, result.items, |start|, |start| + i, |base|, rows, columns)
    {
      var q := toCheck[i];
      ghost var before := result.items;
      assert before[|start| + i] == q;
      if Lookup(numbers, q) == Some(0) {
        FewerUnlisted(rows, columns, start, before);
        OpenNearCells(numbers, q, rows, columns, result);
      }
      LoopStep(numbers, p, q, start, base, before, result.items, |start| + i, rows, columns);
    }
  }

  /** A board cell next to a cell whose value is 0, in the adjacency list of
      `mines`, is not a mine: the cascade never opens a mine. */
  lemma BordersZeroIsSafe(mines: seq<Point>, rows: int, columns: int, q: Point)
    requires InBounds(q, rows, columns)
    requires BordersZero(Numbers(mines, rows, columns), q, rows, columns)
    ensures q !in mines
  {
    var numbers := Numbers(mines, rows, columns);
    var z :| q in Neighbours(z, rows, columns) && Lookup(numbers, z) == Some(0);
    LookupFound(numbers, z);
    var k :| 0 <= k < |numbers| && At(numbers[k]) == z && numbers[k].value == 0;
    assert InBounds(z, rows, columns) by {
      NumbersFacts(mines, rows, columns);
    }
    LookupNumbers(mines, rows, columns, z);
    assert MineNeighbours(z, mines, rows, columns) == {};
    NeighboursExact(z, rows, columns);
    InAllCells(q, rows, columns);
    assert q in AllCells(rows, columns) && Adjacent(z, q);
    assert q !in MineNeighbours(z, mines, rows, columns);
  }
}
