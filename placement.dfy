/** Mine placement, the `!mines.length` branch of `startGame`: a rejection
    loop over a JavaScript `Set` of cell ids seeded with the clicked cell.
    `Math.random` is replaced by a finite sequence of draws, each an id in
    `[0, rows * columns)`; the loop stops early when the draws run out. */
module Placement {
  import opened Grid

  /** The ids of `new Set([first])` after `add`ing every draw in turn, in the
      set's iteration order (the order in which ids were first inserted). */
  function Drawn(first: int, draws: seq<int>): (ids: seq<int>)
    decreases |draws|
  {
    if draws == [] then [first]
    else
      var before := Drawn(first, draws[..|draws| - 1]);
      var d := draws[|draws| - 1];
      if d in before then before else before + [d]
  }

  /** Decodes every id of `ids` into a cell (`Array.from(set).map(...)`). */
  function DecodeAll(ids: seq<int>, columns: int): (cells: seq<Point>)
    requires columns > 0
    ensures |cells| == |ids|
    ensures forall k | 0 <= k < |ids| :: cells[k] == Decode(ids[k], columns)
  {
    seq(|ids|, k requires 0 <= k < |ids| => Decode(ids[k], columns))
  }

  /** The mines the loop leaves when it starts looking at the prefix of `k`
      draws: the ids after the first of the first prefix that brings the set
      to `mineCount + 1` ids, decoded; `None` if no prefix does. */
  function PlacedFrom(first: int, columns: int, mineCount: int, draws: seq<int>, k: nat): Option<seq<Point>>
    requires columns > 0 && k <= |draws|
    decreases |draws| - k
  {
    if |Drawn(first, draws[..k])| == mineCount + 1 then Some(DecodeAll(Drawn(first, draws[..k])[1..], columns))
    else if k == |draws| then None
    else PlacedFrom(first, columns, mineCount, draws, k + 1)
  }

  /** The outcome of placement for a click on `click`. */
  function Placed(click: Point, columns: int, mineCount: int, draws: seq<int>): Option<seq<Point>>
    requires columns > 0
  {
    PlacedFrom(Encode(click, columns), columns, mineCount, draws, 0)
  }

  /** Skipping prefixes that do not reach the target does not change the
      outcome. */
  lemma {:induction false} PlacedSkip(first: int, columns: int, mineCount: int, draws: seq<int>, k: nat, used: nat)
    requires columns > 0 && k <= used <= |draws|
    requires forall j | k <= j < used :: |Drawn(first, draws[..j])| != mineCount + 1
    ensures PlacedFrom(first, columns, mineCount, draws, k) == PlacedFrom(first, columns, mineCount, draws, used)
    decreases used - k
  {
    if k < used {
      PlacedSkip(first, columns, mineCount, draws, k + 1, used);
    }
  }

  /** The set starts with the clicked id, never repeats an id, and holds
      exactly the clicked id and the draws. */
  lemma {:induction false} DrawnShape(first: int, draws: seq<int>)
    ensures |Drawn(first, draws)| >= 1 && Drawn(first, draws)[0] == first
    ensures Distinct(Drawn(first, draws))
    ensures Elems(Drawn(first, draws)) == {first} + Elems(draws)
    decreases |draws|
  {
    if draws != [] {
      var init := draws[..|draws| - 1];
      DrawnShape(first, init);
      assert draws == init + [draws[|draws| - 1]];
      assert Elems(draws) == Elems(init) + {draws[|draws| - 1]};
      var before := Drawn(first, init);
      assert Elems(before + [draws[|draws| - 1]]) == Elems(before) + {draws[|draws| - 1]};
    }
  }

  /** With every draw and the clicked id in `[0, n)`, the set never holds more
      than `n` ids. */
  lemma DrawnAtMost(first: int, draws: seq<int>, n: int)
    requires 0 <= first < n
    requires forall k | 0 <= k < |draws| :: 0 <= draws[k] < n
    ensures |Drawn(first, draws)| <= n
  {
    DrawnShape(first, draws);
    DistinctCount(Drawn(first, draws));
    SubsetCount(Elems(Drawn(first, draws)), Range(n));
    RangeCount(n);
  }

  /** Every id in the set lies in `[0, n)` when the clicked id and the draws do. */
  lemma DrawnInRange(first: int, draws: seq<int>, n: int)
    requires 0 <= first < n
    requires forall k | 0 <= k < |draws| :: 0 <= draws[k] < n
    ensures forall k | 0 <= k < |Drawn(first, draws)| :: 0 <= Drawn(first, draws)[k] < n
  {
    DrawnShape(first, draws);
    forall k | 0 <= k < |Drawn(first, draws)| ensures 0 <= Drawn(first, draws)[k] < n {
      assert Drawn(first, draws)[k] in Elems(Drawn(first, draws));
    }
  }

  /** Decoding the ids after the first one of a repetition-free set of board
      ids that starts with the clicked cell's id gives distinct board cells,
      none of them the clicked cell. */
  lemma DecodedMines(click: Point, rows: int, columns: int, order: seq<int>)
    requires InBounds(click, rows, columns)
    requires |order| >= 1 && order[0] == Encode(click, columns) && Distinct(order)
    requires forall k | 0 <= k < |order| :: 0 <= order[k] < rows * columns
    ensures Distinct(DecodeAll(order[1..], columns))
    ensures AllInBounds(DecodeAll(order[1..], columns), rows, columns)
    ensures click !in DecodeAll(order[1..], columns)
  {
    var ids := order[1..];
    var mines := DecodeAll(ids, columns);
    DecodeEncode(click, rows, columns);
    forall a, b | 0 <= a < b < |mines| ensures mines[a] != mines[b] {
      DecodeInjective(ids[a], ids[b], columns);
    }
    forall k | 0 <= k < |mines| ensures InBounds(mines[k], rows, columns) && mines[k] != click {
      EncodeDecode(ids[k], rows, columns);
      DecodeInjective(ids[k], order[0], columns);
    }
  }

  /** The set's size passes through every value between 1 and its final size,
      one draw at a time. */
  lemma {:induction false} DrawnReaches(first: int, draws: seq<int>, target: int)
    requires 1 <= target <= |Drawn(first, draws)|
    ensures exists k :: 0 <= k <= |draws| && |Drawn(first, draws[..k])| == target
    decreases |draws|
  {
    if target == |Drawn(first, draws)| {
      assert draws[..|draws|] == draws;
    } else {
      var init := draws[..|draws| - 1];
      DrawnReaches(first, init, target);
      var k :| 0 <= k <= |init| && |Drawn(first, init[..k])| == target;
      assert init[..k] == draws[..k];
    }
  }

  /** When the clicked cell and every draw lie on the board, a mine count of
      `rows * columns` or more, or a negative one, can never bring the set to
      `mineCount + 1` ids: the loop of `startGame` would never end. */
  lemma PlacementNeverEnds(first: int, draws: seq<int>, n: int, mineCount: int)
    requires 0 <= first < n
    requires forall k | 0 <= k < |draws| :: 0 <= draws[k] < n
    requires mineCount >= n || mineCount < 0
    ensures forall k | 0 <= k <= |draws| :: |Drawn(first, draws[..k])| != mineCount + 1
  {
    forall k | 0 <= k <= |draws|
      ensures |Drawn(first, draws[..k])| != mineCount + 1
    {
      DrawnAtMost(first, draws[..k], n);
      DrawnShape(first, draws[..k]);
    }
  }

  /** When `0 <= mineCount < rows * columns` and the draws hit every id at
      least once, some prefix of the draws brings the set to exactly
      `mineCount + 1` ids, so the loop ends. */
  lemma PlacementEnds(first: int, draws: seq<int>, n: int, mineCount: int)
    requires 0 <= first < n
    requires 0 <= mineCount < n
    requires Range(n) <= Elems(draws)
    ensures exists k :: 0 <= k <= |draws| && |Drawn(first, draws[..k])| == mineCount + 1
  {
    DrawnShape(first, draws);
    DistinctCount(Drawn(first, draws));
    SubsetCount(Range(n), Elems(Drawn(first, draws)));
    RangeCount(n);
    DrawnReaches(first, draws, mineCount + 1);
  }

  /** Places `mineCount` mines away from `click`. `used` is the number of
      draws consumed; `placed` is false when the draws ran out before the set
      reached `mineCount + 1` ids (where the source would keep drawing). */
  method PlaceMines(click: Point, rows: int, columns: int, mineCount: int, draws: seq<int>)
    returns (mines: seq<Point>, placed: bool, used: nat)
    requires InBounds(click, rows, columns)
    requires forall k | 0 <= k < |draws| :: 0 <= draws[k] < rows * columns
    ensures used <= |draws|
    ensures placed <==> |Drawn(Encode(click, columns), draws[..used])| == mineCount + 1
    ensures !placed ==> used == |draws|
    ensures forall k | 0 <= k < used :: |Drawn(Encode(click, columns), draws[..k])| != mineCount + 1
    ensures mines == DecodeAll(Drawn(Encode(click, columns), draws[..used])[1..], columns)
    ensures placed ==> |mines| == mineCount && Distinct(mines)
    ensures placed ==> AllInBounds(mines, rows, columns) && click !in mines
    ensures Placed(click, columns, mineCount, draws) == if placed then Some(mines) else None
  {
    var id := Encode(click, columns);
    DecodeEncode(click, rows, columns);
    var order := [id];
    var i := 0;
    assert draws[..0] == [];
    while |order| != mineCount + 1 && i < |draws|
      invariant 0 <= i <= |draws|
      invariant order == Drawn(id, draws[..i])
      invariant forall k | 0 <= k < i :: |Drawn(id, draws[..k])| != mineCount + 1
      decreases |draws| - i
    {
      assert draws[..i + 1][..i] == draws[..i];
      if draws[i] !in order {
        order := order + [draws[i]];
      }
      i := i + 1;
    }
    used := i;
    placed := |order| == mineCount + 1;
    mines := DecodeAll(order[1..], columns);
    PlacedSkip(id, columns, mineCount, draws, 0, used);
    if placed {
      DrawnShape(id, draws[..used]);
      DrawnInRange(id, draws[..used], rows * columns);
      DecodedMines(click, rows, columns, order);
    }
  }
}
