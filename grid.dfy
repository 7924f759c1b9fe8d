/**
 * The cells of the 9×9 board and the row-major traversal order that the
 * solver's cursor walks (main.py: class Cell, genListOfIndex).
 */
module Grid {

  // The board is SIZE = 9 cells wide and has SIZE**2 = 81 positions; the
  // numbers are written out so that the arithmetic on them stays linear.

  datatype Option<T> = None | Some(value: T)

  /**
   * One square of the board. `num` is its digit (0 = unset), `grid` the index
   * of its 3×3 block, and `solved` the "confirmed" flag: a confirmed cell is
   * never altered again by the search.
   */
  datatype Cell = Cell(num: int, row: int, col: int, grid: int, solved: bool)

  /** Python's `int(x / 3)`: true division followed by truncation toward zero. */
  function TruncThird(x: int): int
  {
    if x >= 0 then x / 3 else -((-x) / 3)
  }

  /** The block index `int(col/3) + int(row/3)*3` that a cell records. */
  function BlockIndex(row: int, col: int): int
  {
    TruncThird(col) + TruncThird(row) * 3
  }

  /** Cell.__init__(row, col, n): an unconfirmed cell holding n. */
  function NewCell(row: int, col: int, n: int): (c: Cell)
    ensures c.num == n && c.row == row && c.col == col && !c.solved
    ensures 0 <= row < 9 && 0 <= col < 9 ==> 0 <= c.grid < 9
  {
    Cell(n, row, col, BlockIndex(row, col), false)
  }

  /**
   * On the board, two squares get the same block index exactly when they lie
   * in the same band of three rows and the same stack of three columns.
   */
  lemma SameBlockIndex(r1: int, c1: int, r2: int, c2: int)
    requires 0 <= r1 < 9 && 0 <= c1 < 9 && 0 <= r2 < 9 && 0 <= c2 < 9
    ensures BlockIndex(r1, c1) == BlockIndex(r2, c2) <==> r1 / 3 == r2 / 3 && c1 / 3 == c2 / 3
  {
    assert 0 <= c1 / 3 < 3 && 0 <= c2 / 3 < 3;
  }

  /** The position of cell (r, c) in row-major order. */
  function Pos(r: int, c: int): (p: int)
    requires 0 <= r < 9 && 0 <= c < 9
    ensures 0 <= p < 81
  {
    9 * r + c
  }

  /** Pos is the inverse of p |-> (p / 9, p % 9). */
  lemma PosInverse(r: int, c: int)
    requires 0 <= r < 9 && 0 <= c < 9
    ensures Pos(r, c) / 9 == r && Pos(r, c) % 9 == c
  {
  }

  /** The n-th of the indices 0, 1, 2, ... other than k: where entry n of a list that skips k came from. */
  function Skip(k: int, n: int): int
  {
    if n < k then n else n + 1
  }

  /** Python's subscript `s[k]`, where a negative k counts from the end. */
  function PyIndex<T>(s: seq<T>, k: int): T
    requires -|s| <= k < |s|
  {
    if k < 0 then s[|s| + k] else s[k]
  }

  /** The position that `listToIndex[k]` names, for -81 <= k < 81. */
  function Wrap(k: int): int
  {
    if k < 0 then k + 81 else k
  }

  /**
   * genListOfIndex: the 81 (row, col) pairs in row-major order, so that
   * entry p is (p / 9, p % 9).
   */
  method GenListOfIndex() returns (order: seq<(int, int)>)
    ensures |order| == 81
    ensures forall p :: 0 <= p < 81 ==> order[p] == (p / 9, p % 9)
  {
    order := [];
    for r := 0 to 9
      invariant |order| == 9 * r
      invariant forall p :: 0 <= p < 9 * r ==> order[p] == (p / 9, p % 9)
    {
      for c := 0 to 9
        invariant |order| == 9 * r + c
        invariant forall p :: 0 <= p < 9 * r + c ==> order[p] == (p / 9, p % 9)
      {
        order := order + [(r, c)];
      }
    }
  }

  /** Entry k of the traversal list, negative k included, names position Wrap(k). */
  lemma TraversalEntry(order: seq<(int, int)>, k: int)
    requires |order| == 81 && forall p :: 0 <= p < 81 ==> order[p] == (p / 9, p % 9)
    requires -81 <= k < 81
    ensures 0 <= PyIndex(order, k).0 < 9 && 0 <= PyIndex(order, k).1 < 9
    ensures 9 * PyIndex(order, k).0 + PyIndex(order, k).1 == Wrap(k)
  {
    var p := Wrap(k);
    assert PyIndex(order, k) == order[p];
  }

  /** Every position p is 9 * (p / 9) + p % 9, with p / 9 a row index. */
  lemma RowMajorOrder(p: int)
    requires 0 <= p < 81
    ensures 0 <= p / 9 < 9 && 9 * (p / 9) + p % 9 == p
  {
  }
}
