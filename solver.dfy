/**
 * The solving session of main.py's class Puzzle: a 9×9 board of cells that
 * is changed in place, and a cursor `index` into the traversal order. Each
 * call of Solve does one unit of backtracking work and returns, so that a
 * render loop can show the board between steps.
 */
module Solver {
  import opened Grid
  import opened Rules

  class Puzzle {
    /** The board, row-major: cell (r, c) is cells[9*r + c]. */
    var cells: array<Cell>
    /** Puzzle.solved is set once and never read or written again. */
    var solved: bool
    /** The cursor into the traversal order. */
    var index: int

    ghost predicate Valid()
      reads this`cells, cells
    {
      cells.Length == 81 && WellFormed(cells[..])
    }

    /** Puzzle.__init__: 81 unset, unconfirmed cells and the cursor at 0. */
    constructor ()
      ensures Valid() && fresh(cells)
      ensures index == 0 && !solved
      ensures forall p :: 0 <= p < 81 ==> cells[p].num == 0 && !cells[p].solved
    {
      var a := new Cell[81];
      for r := 0 to 9
        invariant forall i, j :: 0 <= i < r && 0 <= j < 9 ==> a[9 * i + j] == NewCell(i, j, 0)
      {
        for c := 0 to 9
          invariant forall i, j :: 0 <= i < 9 && 0 <= j < 9 && (i < r || (i == r && j < c)) ==>
            a[9 * i + j] == NewCell(i, j, 0)
        {
          a[Pos(r, c)] := NewCell(r, c, 0);
        }
      }
      forall p | 0 <= p < 81 ensures a[p] == NewCell(p / 9, p % 9, 0) {
        RowMajorOrder(p);
      }
      cells := a;
      solved := false;
      index := 0;
    }

    /**
     * getGridVals: the digits of the eight other cells of the 3×3 block of
     * (row, col), zeros included, the block read row by row
     * (Rules.OtherBlockCellSpec says which cells those are).
     */
    method GetGridVals(row: int, col: int) returns (gridVals: seq<int>)
      requires cells.Length == 81 && 0 <= row < 9 && 0 <= col < 9
      ensures |gridVals| == 8
      ensures forall n :: 0 <= n < 8 ==> gridVals[n] == cells[OtherBlockCell(row, col, n)].num
    {
      ghost var self := 3 * (row % 3) + col % 3;
      gridVals := [];
      for r := 0 to 3
        invariant |gridVals| == 3 * r - (if 3 * r > self then 1 else 0)
        invariant forall n :: 0 <= n < |gridVals| ==> gridVals[n] == cells[OtherBlockCell(row, col, n)].num
      {
        for c := 0 to 3
          invariant |gridVals| == 3 * r + c - (if 3 * r + c > self then 1 else 0)
          invariant forall n :: 0 <= n < |gridVals| ==> gridVals[n] == cells[OtherBlockCell(row, col, n)].num
        {
          var rIndex := (row / 3) * 3 + r;
          var cIndex := (col / 3) * 3 + c;
          BlockCellIsSelf(row, col, r, c);
          if rIndex == row && cIndex == col {
          } else {
            ghost var n := OtherBlockCellAt(row, col, r, c);
            gridVals := gridVals + [cells[9 * rIndex + cIndex].num];
          }
        }
      }
    }

    /**
     * getOptions: the candidate digits of (row, col), ascending. The row, the
     * column and the block values are gathered, zeros dropped, and what is
     * left of 1..9 is returned. numpy's setxor1d with 1..9 is the set
     * difference computed here as long as every digit on the board is in
     * 0..9, which is what the second precondition asks (Valid implies it).
     */
    method GetOptions(row: int, col: int) returns (possVals: seq<int>)
      requires cells.Length == 81 && 0 <= row < 9 && 0 <= col < 9
      requires forall p :: 0 <= p < 81 ==> 0 <= cells[p].num <= 9
      ensures possVals == Options(cells[..], row, col)
    {
      ghost var b := cells[..];
      var puzRow: seq<int> := [];
      var puzCol: seq<int> := [];
      var puzGrid := GetGridVals(row, col);
      for i := 0 to 9
        invariant |puzRow| == i - (if i > col then 1 else 0)
        invariant |puzCol| == i - (if i > row then 1 else 0)
        invariant forall n :: 0 <= n < |puzRow| ==> puzRow[n] == b[Pos(row, Skip(col, n))].num
        invariant forall n :: 0 <= n < |puzCol| ==> puzCol[n] == b[Pos(Skip(row, n), col)].num
      {
        if i != col {
          puzRow := puzRow + [cells[Pos(row, i)].num];
        }
        if i != row {
          puzCol := puzCol + [cells[Pos(i, col)].num];
        }
      }
      // the nonzero digits held by the gathered peers
      var nonOptions := set v | v in puzRow + puzCol + puzGrid && v != 0;
      // the digits 1..9 outside that set, ascending (GatheredOptions)
      possVals := DigitsNotIn(nonOptions, 9);
      GatheredOptions(b, row, col, puzRow, puzCol, puzGrid, nonOptions);
    }

    /**
     * checkSolvedBefore: true iff (row, col) is on the board and every cell
     * before it in row-major order is confirmed. Off the board the source
     * returns False at the first unconfirmed cell, or None when all 81 are
     * confirmed; both are falsy and are read here as false.
     */
    method CheckSolvedBefore(row: int, col: int) returns (before: bool)
      requires cells.Length == 81
      ensures before == (0 <= row < 9 && 0 <= col < 9 && ConfirmedBefore(cells[..], 9 * row + col))
    {
      for r := 0 to 9
        invariant forall q :: 0 <= q < 9 * r ==> cells[q].solved
        invariant !(0 <= row < r && 0 <= col < 9)
      {
        for c := 0 to 9
          invariant forall q :: 0 <= q < 9 * r + c ==> cells[q].solved
          invariant !(0 <= row < r && 0 <= col < 9) && !(row == r && 0 <= col < c)
        {
          if r == row && c == col {
            return true;
          }
          if !cells[Pos(r, c)].solved {
            return false;
          }
        }
      }
      return false;
    }

    /** isSolved: true iff no cell is unset. */
    method IsSolved() returns (done: bool)
      requires cells.Length == 81
      ensures done <==> forall p :: 0 <= p < 81 ==> cells[p].num != 0
    {
      for r := 0 to 9
        invariant forall p :: 0 <= p < 9 * r ==> cells[p].num != 0
      {
        for c := 0 to 9
          invariant forall p :: 0 <= p < 9 * r + c ==> cells[p].num != 0
        {
          if cells[Pos(r, c)].num == 0 {
            return false;
          }
        }
      }
      return true;
    }

    /**
     * setStartVals, with the clue grid passed in: every cell takes the clue's
     * digit, and a nonzero clue confirms its cell. A zero clue leaves the
     * confirmed flag as it was.
     */
    method SetStartVals(board: seq<seq<int>>)
      requires Valid()
      requires |board| == 9 && forall r :: 0 <= r < 9 ==> |board[r]| == 9
      requires forall r, c :: 0 <= r < 9 && 0 <= c < 9 ==> 0 <= board[r][c] <= 9
      modifies cells
      ensures Valid()
      ensures forall p :: 0 <= p < 81 ==>
        cells[p] == old(cells[p]).(num := board[p / 9][p % 9],
                                   solved := old(cells[p].solved) || board[p / 9][p % 9] != 0)
      ensures (forall p :: 0 <= p < 81 ==> !old(cells[p].solved)) ==>
        forall p :: 0 <= p < 81 ==> (cells[p].solved <==> cells[p].num != 0)
    {
      for r := 0 to 9
        invariant Valid()
        invariant forall p :: 0 <= p < 9 * r ==>
          cells[p] == old(cells[p]).(num := board[p / 9][p % 9],
                                     solved := old(cells[p].solved) || board[p / 9][p % 9] != 0)
        invariant forall p :: 9 * r <= p < 81 ==> cells[p] == old(cells[p])
      {
        for c := 0 to 9
          invariant Valid()
          invariant forall p :: 0 <= p < 9 * r + c ==>
            cells[p] == old(cells[p]).(num := board[p / 9][p % 9],
                                       solved := old(cells[p].solved) || board[p / 9][p % 9] != 0)
          invariant forall p :: 9 * r + c <= p < 81 ==> cells[p] == old(cells[p])
        {
          var p := Pos(r, c);
          PosInverse(r, c);
          cells[p] := cells[p].(num := board[r][c]);
          if cells[p].num != 0 {
            cells[p] := cells[p].(solved := true);
          }
        }
      }
    }

    /**
     * solve's branch for an unset cell with candidates: the cell takes the
     * least candidate, is confirmed iff it is the only candidate and every
     * earlier cell is confirmed, and the cursor moves on.
     */
    method GuessLowest(r: int, c: int, possVals: seq<int>)
      requires Valid() && 0 <= r < 9 && 0 <= c < 9
      requires possVals == Options(cells[..], r, c) && |possVals| > 0
      modifies this`index, cells
      ensures Valid()
      ensures index == old(index) + 1
      ensures cells[..] == old(cells[..])[Pos(r, c) := old(cells[Pos(r, c)]).(num := possVals[0],
                solved := |possVals| == 1 && ConfirmedBefore(old(cells[..]), Pos(r, c)))]
      ensures old(ConfirmedNonzero(cells[..])) ==> ConfirmedNonzero(cells[..])
      ensures old(ConfirmedConsistent(cells[..])) ==> ConfirmedConsistent(cells[..])
    {
      ghost var b := cells[..];
      var p := Pos(r, c);
      FirstOptionAllowed(b, r, c);
      cells[p] := cells[p].(num := possVals[0]);
      ConfirmedBeforeWrite(b, p, cells[p]);
      // confirmed only when this is the sole candidate and CheckSolvedBefore holds
      var confirm := false;
      if |possVals| == 1 {
        confirm := CheckSolvedBefore(r, c);
      }
      cells[p] := cells[p].(solved := confirm);
      WellFormedWrite(b, p, cells[p]);
      if ConfirmedConsistent(b) {
        WriteKeepsConsistency(b, r, c, cells[p]);
      }
      index := index + 1;
    }

    /**
     * solve's branch for a cell guessed before: it moves to the least
     * candidate above its value and the cursor moves on; when there is none,
     * nothing changes and noOptions is reported.
     */
    method GuessNext(r: int, c: int, possVals: seq<int>) returns (noOptions: bool)
      requires Valid() && 0 <= r < 9 && 0 <= c < 9
      requires possVals == Options(cells[..], r, c) && !cells[Pos(r, c)].solved
      modifies this`index, cells
      ensures Valid()
      ensures noOptions <==> NextCandidate(possVals, old(cells[Pos(r, c)].num)).None?
      ensures noOptions ==> index == old(index) && cells[..] == old(cells[..])
      ensures !noOptions ==>
        index == old(index) + 1 &&
        cells[..] == old(cells[..])[Pos(r, c) := old(cells[Pos(r, c)]).(num := NextCandidate(possVals, old(cells[Pos(r, c)].num)).value)]
      ensures old(ConfirmedNonzero(cells[..])) ==> ConfirmedNonzero(cells[..])
      ensures old(ConfirmedConsistent(cells[..])) ==> ConfirmedConsistent(cells[..])
    {
      ghost var b := cells[..];
      var p := Pos(r, c);
      OptionsSpec(b, r, c);
      // the least candidate above the current digit, or None (Rules.NextCandidate)
      var next := NextCandidate(possVals, cells[p].num);
      if next.None? {
        noOptions := true;
      } else {
        noOptions := false;
        cells[p] := cells[p].(num := next.value);
        WellFormedWrite(b, p, cells[p]);
        if ConfirmedConsistent(b) {
          WriteKeepsConsistency(b, r, c, cells[p]);
        }
        index := index + 1;
      }
    }

    /**
     * solve's backtracking: the current cell is reset, then the cursor walks
     * back to the nearest unconfirmed cell (StepBack).
     */
    method Backtrack(listToIndex: seq<(int, int)>)
      requires Valid() && 0 <= index < 81 && !cells[index].solved
      requires |listToIndex| == 81 && forall p :: 0 <= p < 81 ==> listToIndex[p] == (p / 9, p % 9)
      modifies this`index, cells
      ensures Valid()
      ensures cells[..] == old(cells[..])[old(index) := old(cells[index]).(num := 0, solved := false)]
      ensures IsBacktrackTarget(cells[..], old(index), index)
      ensures old(ConfirmedNonzero(cells[..])) ==> ConfirmedNonzero(cells[..])
      ensures old(ConfirmedConsistent(cells[..])) ==> ConfirmedConsistent(cells[..])
    {
      ghost var b := cells[..];
      var i := index;
      cells[i] := cells[i].(num := 0, solved := false);
      WellFormedWrite(b, i, cells[i]);
      if ConfirmedConsistent(b) {
        ResetKeepsConsistency(b, i, cells[i]);
      }
      StepBack(listToIndex);
    }

    /**
     * The walk of solve's backtracking: the cursor steps back, and keeps
     * stepping back past confirmed cells. Past 0 the traversal list is read
     * with Python's negative indexing, as in the source; the unconfirmed
     * starting cell itself stops the walk by cursor index - 81.
     */
    method StepBack(listToIndex: seq<(int, int)>)
      requires cells.Length == 81 && 0 <= index < 81 && !cells[index].solved
      requires |listToIndex| == 81 && forall p :: 0 <= p < 81 ==> listToIndex[p] == (p / 9, p % 9)
      modifies this`index
      ensures IsBacktrackTarget(cells[..], old(index), index)
    {
      ghost var i := index;
      index := index - 1;
      TraversalEntry(listToIndex, index);
      var rc := PyIndex(listToIndex, index);
      var r, c := rc.0, rc.1;
      // step back over confirmed cells; the invariant records that each one passed is confirmed
      while cells[9 * r + c].solved
        invariant i - 81 <= index < i
        invariant 0 <= r < 9 && 0 <= c < 9 && 9 * r + c == Wrap(index)
        invariant forall j :: index < j < i ==> cells[Wrap(j)].solved
        decreases index - (i - 81)
      {
        index := index - 1;
        TraversalEntry(listToIndex, index);
        rc := PyIndex(listToIndex, index);
        r, c := rc.0, rc.1;
      }
    }

    /**
     * solve: one step of the search. The source wraps the step in
     * `while index < 81`, but every path through the body returns, so it is
     * a single transition.
     *   - cursor off the end (>= 81, solved) or negative (no solution):
     *     nothing changes;
     *   - current cell confirmed: the cursor moves on;
     *   - current cell unset with candidates: it takes the least candidate,
     *     is confirmed iff that candidate is the only one and every earlier
     *     cell is confirmed, and the cursor moves on;
     *   - current cell guessed before, with a candidate above its value: it
     *     takes the least such candidate and the cursor moves on;
     *   - otherwise: the cell is reset and the cursor walks back to the
     *     nearest unconfirmed cell. The walk reads the traversal list with
     *     Python's negative indexing once the cursor passes 0, exactly as the
     *     source does; it only reads, and ends on a negative cursor iff every
     *     earlier cell is confirmed (Rules.BacktrackVerdict).
     */
    method Solve()
      requires Valid()
      modifies this`index, cells
      ensures Valid()
      ensures forall q :: 0 <= q < 81 && q != old(index) ==> cells[q] == old(cells[q])
      ensures forall q :: 0 <= q < 81 && old(cells[q].solved) ==> cells[q] == old(cells[q])
      ensures old(index) < 0 || old(index) >= 81 ==>
        index == old(index) && cells[..] == old(cells[..])
      ensures 0 <= old(index) < 81 && old(cells[index].solved) ==>
        index == old(index) + 1 && cells[..] == old(cells[..])
      ensures 0 <= old(index) < 81 && !old(cells[index].solved) ==>
        var i := old(index);
        var b := old(cells[..]);
        var opts := Options(b, i / 9, i % 9);
        if b[i].num == 0 && |opts| > 0 then
          index == i + 1 &&
          cells[..] == b[i := b[i].(num := opts[0], solved := |opts| == 1 && ConfirmedBefore(b, i))]
        else if b[i].num != 0 && NextCandidate(opts, b[i].num).Some? then
          index == i + 1 &&
          cells[..] == b[i := b[i].(num := NextCandidate(opts, b[i].num).value)]
        else
          cells[..] == b[i := b[i].(num := 0, solved := false)] &&
          IsBacktrackTarget(cells[..], i, index)
      ensures old(ConfirmedNonzero(cells[..])) ==> ConfirmedNonzero(cells[..])
      ensures old(ConfirmedConsistent(cells[..])) ==> ConfirmedConsistent(cells[..])
    {
      var listToIndex := GenListOfIndex();
      if index >= 81 {
        return;
      }
      if index < 0 {
        // cursor before position 0: the step leaves board and cursor as they are
        return;
      }
      var noOptions := false;
      var r, c := listToIndex[index].0, listToIndex[index].1;
      if cells[Pos(r, c)].solved {
        index := index + 1;
        return;
      }
      var possVals := GetOptions(r, c);
      if |possVals| > 0 {
        if cells[Pos(r, c)].num == 0 {
          // digit 0: least candidate, confirmation as GuessLowest's ensures state
          GuessLowest(r, c, possVals);
        } else {
          // digit already guessed: next larger candidate, or noOptions (GuessNext)
          noOptions := GuessNext(r, c, possVals);
        }
      }
      if |possVals| == 0 || noOptions {
        // no candidates, or none above the current digit: reset and walk back (Backtrack)
        Backtrack(listToIndex);
      }
    }
  }
}
