/**
 * What the solver computes about a board, stated on board values: a board is
 * the sequence of its 81 cells in row-major order, cell (r, c) at 9*r + c.
 * These are the specifications that the methods of Solver.Puzzle meet.
 */
module Rules {
  import opened Grid

  type Board = seq<Cell>

  /** Every cell sits at its own position, knows its block, and holds 0..9. */
  ghost predicate WellFormed(b: Board)
  {
    |b| == 81 &&
    forall p :: 0 <= p < 81 ==>
      b[p].row == p / 9 && b[p].col == p % 9 &&
      b[p].grid == BlockIndex(p / 9, p % 9) &&
      0 <= b[p].num <= 9
  }

  /** Positions p and q are in one 3×3 block. */
  predicate SameBlock(p: int, q: int)
  {
    (p / 9) / 3 == (q / 9) / 3 && (p % 9) / 3 == (q % 9) / 3
  }

  /** The cell in row i and column j (both 0..2) of the block that holds (row, col). */
  function BlockCell(row: int, col: int, i: int, j: int): (q: int)
    requires 0 <= row < 9 && 0 <= col < 9 && 0 <= i < 3 && 0 <= j < 3
    ensures 0 <= q < 81
  {
    9 * ((row / 3) * 3 + i) + (col / 3) * 3 + j
  }

  lemma BlockCellInBlock(row: int, col: int, i: int, j: int)
    requires 0 <= row < 9 && 0 <= col < 9 && 0 <= i < 3 && 0 <= j < 3
    ensures SameBlock(9 * row + col, BlockCell(row, col, i, j))
  {
    var br, bc := (row / 3) * 3 + i, (col / 3) * 3 + j;
    assert 0 <= br < 9 && 0 <= bc < 9;
    PosInverse(br, bc);
    PosInverse(row, col);
  }

  lemma BlockCellIsSelf(row: int, col: int, i: int, j: int)
    requires 0 <= row < 9 && 0 <= col < 9 && 0 <= i < 3 && 0 <= j < 3
    ensures BlockCell(row, col, i, j) == 9 * row + col <==> i == row % 3 && j == col % 3
  {
  }

  lemma BlockCellCovers(row: int, col: int, q: int) returns (i: int, j: int)
    requires 0 <= row < 9 && 0 <= col < 9 && 0 <= q < 81
    requires SameBlock(9 * row + col, q)
    ensures 0 <= i < 3 && 0 <= j < 3 && BlockCell(row, col, i, j) == q
  {
    PosInverse(row, col);
    i, j := q / 9 - (row / 3) * 3, q % 9 - (col / 3) * 3;
  }

  /**
   * Cell n (0..7) of the other eight cells of the block of (row, col), the
   * block read row by row: the order in which getGridVals lists them.
   */
  function OtherBlockCell(row: int, col: int, n: int): (q: int)
    requires 0 <= row < 9 && 0 <= col < 9 && 0 <= n < 8
    ensures 0 <= q < 81
  {
    var k := Skip(3 * (row % 3) + col % 3, n);
    BlockCell(row, col, k / 3, k % 3)
  }

  /** Block cell (i, j) other than (row, col) itself is listed at index n. */
  lemma OtherBlockCellAt(row: int, col: int, i: int, j: int) returns (n: int)
    requires 0 <= row < 9 && 0 <= col < 9 && 0 <= i < 3 && 0 <= j < 3
    requires !(i == row % 3 && j == col % 3)
    ensures n == 3 * i + j - (if 3 * i + j > 3 * (row % 3) + col % 3 then 1 else 0)
    ensures 0 <= n < 8 && OtherBlockCell(row, col, n) == BlockCell(row, col, i, j)
  {
    var self := 3 * (row % 3) + col % 3;
    var k := 3 * i + j;
    n := k - (if k > self then 1 else 0);
    assert Skip(self, n) == k;
    assert k / 3 == i && k % 3 == j;
  }

  /**
   * Each listed cell is in the block of (row, col) and is not (row, col)
   * itself; OtherBlockCellCovers and OtherBlockCellsIncrease give the rest.
   */
  lemma OtherBlockCellSpec(row: int, col: int, n: int)
    requires 0 <= row < 9 && 0 <= col < 9 && 0 <= n < 8
    ensures OtherBlockCell(row, col, n) != 9 * row + col
    ensures SameBlock(9 * row + col, OtherBlockCell(row, col, n))
  {
    var k := Skip(3 * (row % 3) + col % 3, n);
    BlockCellInBlock(row, col, k / 3, k % 3);
    BlockCellIsSelf(row, col, k / 3, k % 3);
  }

  lemma OtherBlockCellCovers(row: int, col: int, q: int) returns (n: int)
    requires 0 <= row < 9 && 0 <= col < 9 && 0 <= q < 81
    requires q != 9 * row + col && SameBlock(9 * row + col, q)
    ensures 0 <= n < 8 && OtherBlockCell(row, col, n) == q
  {
    var i, j := BlockCellCovers(row, col, q);
    BlockCellIsSelf(row, col, i, j);
    n := OtherBlockCellAt(row, col, i, j);
  }

  lemma OtherBlockCellsIncrease(row: int, col: int, n: int, m: int)
    requires 0 <= row < 9 && 0 <= col < 9 && 0 <= n < m < 8
    ensures OtherBlockCell(row, col, n) < OtherBlockCell(row, col, m)
  {
    var self := 3 * (row % 3) + col % 3;
    var k, l := Skip(self, n), Skip(self, m);
    assert 9 * (k / 3) + k % 3 < 9 * (l / 3) + l % 3;
  }

  /**
   * Distinct positions that share a row, a column or a block: the cells whose
   * digits rule out a value for each other.
   */
  predicate Peers(p: int, q: int)
  {
    p != q && (p / 9 == q / 9 || p % 9 == q % 9 || SameBlock(p, q))
  }

  /**
   * Digit d may go in (row, col): it is 1..9 and no other cell in the row,
   * the column or the block holds it. The cell's own value is not looked at,
   * and 0 never rules anything out.
   */
  predicate Allowed(b: Board, row: int, col: int, d: int)
    requires |b| == 81 && 0 <= row < 9 && 0 <= col < 9
  {
    1 <= d <= 9 &&
    forall q :: 0 <= q < 81 && Peers(9 * row + col, q) ==> b[q].num != d
  }

  /** Every peer's digit is among the gathered values (the premises of AllowedIffNotGathered). */
  lemma PeersGathered(b: Board, row: int, col: int,
                      rowVals: seq<int>, colVals: seq<int>, blockVals: seq<int>, q: int)
    requires |b| == 81 && 0 <= row < 9 && 0 <= col < 9
    requires |rowVals| == 8 && forall n :: 0 <= n < 8 ==> rowVals[n] == b[Pos(row, Skip(col, n))].num
    requires |colVals| == 8 && forall n :: 0 <= n < 8 ==> colVals[n] == b[Pos(Skip(row, n), col)].num
    requires |blockVals| == 8 && forall n :: 0 <= n < 8 ==> blockVals[n] == b[OtherBlockCell(row, col, n)].num
    requires 0 <= q < 81 && Peers(9 * row + col, q)
    ensures b[q].num in rowVals + colVals + blockVals
  {
    var vals := rowVals + colVals + blockVals;
    RowMajorOrder(q);
    if q / 9 == row {
      var c := q % 9;
      var n := if c < col then c else c - 1;
      assert Skip(col, n) == c;
      assert vals[n] == b[q].num;
    } else if q % 9 == col {
      var r := q / 9;
      var n := if r < row then r else r - 1;
      assert Skip(row, n) == r;
      assert vals[8 + n] == b[q].num;
    } else {
      var n := OtherBlockCellCovers(row, col, q);
      assert vals[16 + n] == b[q].num;
    }
  }

  /** Every gathered value is some peer's digit (the premises of AllowedIffNotGathered). */
  lemma GatheredArePeers(b: Board, row: int, col: int,
                         rowVals: seq<int>, colVals: seq<int>, blockVals: seq<int>, n: int) returns (q: int)
    requires |b| == 81 && 0 <= row < 9 && 0 <= col < 9
    requires |rowVals| == 8 && forall n :: 0 <= n < 8 ==> rowVals[n] == b[Pos(row, Skip(col, n))].num
    requires |colVals| == 8 && forall n :: 0 <= n < 8 ==> colVals[n] == b[Pos(Skip(row, n), col)].num
    requires |blockVals| == 8 && forall n :: 0 <= n < 8 ==> blockVals[n] == b[OtherBlockCell(row, col, n)].num
    requires 0 <= n < 24
    ensures 0 <= q < 81 && Peers(9 * row + col, q) && b[q].num == (rowVals + colVals + blockVals)[n]
  {
    if n < 8 {
      q := Pos(row, Skip(col, n));
      PosInverse(row, Skip(col, n));
    } else if n < 16 {
      q := Pos(Skip(row, n - 8), col);
      PosInverse(Skip(row, n - 8), col);
    } else {
      q := OtherBlockCell(row, col, n - 16);
      OtherBlockCellSpec(row, col, n - 16);
    }
  }

  /**
   * getOptions' argument: if rowVals, colVals and blockVals list the digits
   * of the other cells of the row, the column and the block of (row, col),
   * in row-major order, the allowed digits are exactly the ones 1..9 missing
   * from all three lists.
   */
  lemma AllowedIffNotGathered(b: Board, row: int, col: int,
                              rowVals: seq<int>, colVals: seq<int>, blockVals: seq<int>)
    requires |b| == 81 && 0 <= row < 9 && 0 <= col < 9
    requires |rowVals| == 8 && forall n :: 0 <= n < 8 ==> rowVals[n] == b[Pos(row, Skip(col, n))].num
    requires |colVals| == 8 && forall n :: 0 <= n < 8 ==> colVals[n] == b[Pos(Skip(row, n), col)].num
    requires |blockVals| == 8 && forall n :: 0 <= n < 8 ==> blockVals[n] == b[OtherBlockCell(row, col, n)].num
    ensures forall d :: 1 <= d <= 9 ==> (Allowed(b, row, col, d) <==> d !in rowVals + colVals + blockVals)
  {
    var vals := rowVals + colVals + blockVals;
    forall d | 1 <= d <= 9 ensures Allowed(b, row, col, d) <==> d !in vals {
      if d in vals {
        var n :| 0 <= n < 24 && vals[n] == d;
        var q := GatheredArePeers(b, row, col, rowVals, colVals, blockVals, n);
      }
      if !Allowed(b, row, col, d) {
        var q :| 0 <= q < 81 && Peers(9 * row + col, q) && b[q].num == d;
        PeersGathered(b, row, col, rowVals, colVals, blockVals, q);
      }
    }
  }

  /** The allowed digits among 1..n, in ascending order. */
  function OptionsUpTo(b: Board, row: int, col: int, n: nat): seq<int>
    requires |b| == 81 && 0 <= row < 9 && 0 <= col < 9
  {
    if n == 0 then []
    else OptionsUpTo(b, row, col, n - 1) + (if Allowed(b, row, col, n) then [n] else [])
  }

  /** The candidate list of (row, col), as getOptions returns it. */
  function Options(b: Board, row: int, col: int): seq<int>
    requires |b| == 81 && 0 <= row < 9 && 0 <= col < 9
  {
    OptionsUpTo(b, row, col, 9)
  }

  /**
   * The digits 1..n that are not in taken, ascending: numpy's
   * setxor1d(arange(1, 10), taken) for n = 9, as long as taken holds only
   * digits 1..9 (a symmetric difference is then a set difference).
   */
  function DigitsNotIn(taken: set<int>, n: nat): seq<int>
  {
    if n == 0 then [] else DigitsNotIn(taken, n - 1) + (if n in taken then [] else [n])
  }

  lemma {:induction false} DigitsNotInAreOptions(b: Board, row: int, col: int, taken: set<int>, n: nat)
    requires |b| == 81 && 0 <= row < 9 && 0 <= col < 9 && n <= 9
    requires forall d :: 1 <= d <= 9 ==> (Allowed(b, row, col, d) <==> d !in taken)
    ensures DigitsNotIn(taken, n) == OptionsUpTo(b, row, col, n)
  {
    if n > 0 {
      DigitsNotInAreOptions(b, row, col, taken, n - 1);
    }
  }

  /**
   * getOptions from end to end: once the other cells of the row, the column
   * and the block are gathered (as in AllowedIffNotGathered), the digits
   * 1..9 missing from the nonzero gathered values are the candidate list.
   */
  lemma GatheredOptions(b: Board, row: int, col: int,
                        rowVals: seq<int>, colVals: seq<int>, blockVals: seq<int>, taken: set<int>)
    requires |b| == 81 && 0 <= row < 9 && 0 <= col < 9
    requires |rowVals| == 8 && forall n :: 0 <= n < 8 ==> rowVals[n] == b[Pos(row, Skip(col, n))].num
    requires |colVals| == 8 && forall n :: 0 <= n < 8 ==> colVals[n] == b[Pos(Skip(row, n), col)].num
    requires |blockVals| == 8 && forall n :: 0 <= n < 8 ==> blockVals[n] == b[OtherBlockCell(row, col, n)].num
    requires forall v :: v in taken <==> v in rowVals + colVals + blockVals && v != 0
    ensures DigitsNotIn(taken, 9) == Options(b, row, col)
  {
    AllowedIffNotGathered(b, row, col, rowVals, colVals, blockVals);
    DigitsNotInAreOptions(b, row, col, taken, 9);
  }

  predicate StrictlyIncreasing(s: seq<int>)
  {
    forall i, j :: 0 <= i < j < |s| ==> s[i] < s[j]
  }

  lemma {:induction false} OptionsUpToSpec(b: Board, row: int, col: int, n: nat)
    requires |b| == 81 && 0 <= row < 9 && 0 <= col < 9
    ensures StrictlyIncreasing(OptionsUpTo(b, row, col, n))
    ensures forall d :: d in OptionsUpTo(b, row, col, n) <==> 1 <= d <= n && Allowed(b, row, col, d)
  {
    if n > 0 {
      OptionsUpToSpec(b, row, col, n - 1);
      var prefix := OptionsUpTo(b, row, col, n - 1);
      forall i | 0 <= i < |prefix| ensures prefix[i] < n {
        assert prefix[i] in prefix;
      }
    }
  }

  /**
   * The candidate list is ascending without repeats and holds exactly the
   * allowed digits.
   */
  lemma OptionsSpec(b: Board, row: int, col: int)
    requires |b| == 81 && 0 <= row < 9 && 0 <= col < 9
    ensures StrictlyIncreasing(Options(b, row, col))
    ensures forall d :: d in Options(b, row, col) <==> Allowed(b, row, col, d)
    ensures forall i :: 0 <= i < |Options(b, row, col)| ==> 1 <= Options(b, row, col)[i] <= 9
  {
    OptionsUpToSpec(b, row, col, 9);
    var s := Options(b, row, col);
    forall i | 0 <= i < |s| ensures 1 <= s[i] <= 9 {
      assert s[i] in s;
    }
  }

  lemma {:induction false} OptionsUpToPeersOnly(b: Board, b': Board, row: int, col: int, n: nat)
    requires |b| == 81 && |b'| == 81 && 0 <= row < 9 && 0 <= col < 9
    requires forall q :: 0 <= q < 81 && Peers(9 * row + col, q) ==> b[q].num == b'[q].num
    ensures OptionsUpTo(b, row, col, n) == OptionsUpTo(b', row, col, n)
  {
    if n > 0 {
      OptionsUpToPeersOnly(b, b', row, col, n - 1);
      assert Allowed(b, row, col, n) == Allowed(b', row, col, n);
    }
  }

  /**
   * The candidates of (row, col) depend only on the digits of its peers: not
   * on its own value, not on any confirmed flag, not on the rest of the board.
   */
  lemma OptionsDependOnPeersOnly(b: Board, b': Board, row: int, col: int)
    requires |b| == 81 && |b'| == 81 && 0 <= row < 9 && 0 <= col < 9
    requires forall q :: 0 <= q < 81 && Peers(9 * row + col, q) ==> b[q].num == b'[q].num
    ensures Options(b, row, col) == Options(b', row, col)
  {
    OptionsUpToPeersOnly(b, b', row, col, 9);
  }

  /**
   * The value a previously guessed cell moves on to: the least candidate
   * strictly above its current value v, or None when there is none. In the
   * source this is the entry after v in the sorted union of the candidates
   * with {v}.
   */
  function NextCandidate(opts: seq<int>, v: int): (next: Option<int>)
    ensures next.Some? <==> exists d :: d in opts && d > v
    ensures next.Some? ==> next.value in opts && next.value > v
    ensures next.Some? ==> forall d :: d in opts && d > v ==> next.value <= d
  {
    if opts == [] then None
    else
      var rest := NextCandidate(opts[1..], v);
      assert forall d :: d in opts <==> d == opts[0] || d in opts[1..];
      if opts[0] <= v then rest
      else if rest.Some? && rest.value < opts[0] then rest
      else assert opts[0] in opts; Some(opts[0])
  }

  /**
   * checkSolvedBefore's condition: every position strictly before p in
   * row-major order is confirmed.
   */
  ghost predicate ConfirmedBefore(b: Board, p: int)
  {
    forall q :: 0 <= q < p && q < |b| ==> b[q].solved
  }

  /**
   * Where the backtracking walk that starts below cursor i stops: k is the
   * first index below i whose cell (read through Python's negative indexing)
   * is not confirmed.
   */
  ghost predicate IsBacktrackTarget(b: Board, i: int, k: int)
    requires |b| == 81
  {
    0 <= i < 81 && i - 81 <= k < i &&
    !b[Wrap(k)].solved &&
    forall j :: k < j < i ==> b[Wrap(j)].solved
  }

  /**
   * When the walk starts from an unconfirmed cell i, it lands on a
   * non-negative cursor iff some earlier cell is unconfirmed, and then on the
   * nearest one; it goes negative iff every earlier cell is confirmed.
   * So stopping at the first negative cursor would give the same verdict.
   */
  lemma BacktrackVerdict(b: Board, i: int, k: int)
    requires |b| == 81 && 0 <= i < 81 && !b[i].solved
    requires IsBacktrackTarget(b, i, k)
    ensures k >= 0 <==> exists j :: 0 <= j < i && !b[j].solved
    ensures k >= 0 ==> !b[k].solved && forall j :: k < j < i ==> b[j].solved
    ensures k < 0 <==> ConfirmedBefore(b, i)
  {
    if k < 0 {
      forall j | 0 <= j < i ensures b[j].solved {
        assert Wrap(j) == j;
      }
    } else {
      assert Wrap(k) == k;
      forall j | k < j < i ensures b[j].solved {
        assert Wrap(j) == j;
      }
    }
  }

  /** The walk's landing place is determined by the board and the start. */
  lemma BacktrackTargetUnique(b: Board, i: int, k1: int, k2: int)
    requires |b| == 81
    requires IsBacktrackTarget(b, i, k1) && IsBacktrackTarget(b, i, k2)
    ensures k1 == k2
  {
  }

  /** Writing a digit 0..9 into one cell, keeping its coordinates, keeps the board well formed. */
  lemma WellFormedWrite(b: Board, p: int, c: Cell)
    requires WellFormed(b) && 0 <= p < 81
    requires c.row == b[p].row && c.col == b[p].col && c.grid == b[p].grid && 0 <= c.num <= 9
    ensures WellFormed(b[p := c])
  {
  }

  /** A confirmed cell always holds a digit. */
  ghost predicate ConfirmedNonzero(b: Board)
  {
    forall p :: 0 <= p < |b| && b[p].solved ==> b[p].num != 0
  }

  /** No two confirmed peers hold the same digit. */
  ghost predicate ConfirmedConsistent(b: Board)
    requires |b| == 81
  {
    forall p, q :: 0 <= p < 81 && 0 <= q < 81 && Peers(p, q) && b[p].solved && b[q].solved ==>
      b[p].num != b[q].num
  }

  /**
   * Confirming an allowed digit at p keeps confirmed cells free of clashes,
   * and so does any write that leaves p unconfirmed.
   */
  lemma WriteKeepsConsistency(b: Board, row: int, col: int, c: Cell)
    requires |b| == 81 && 0 <= row < 9 && 0 <= col < 9 && ConfirmedConsistent(b)
    requires c.solved ==> Allowed(b, row, col, c.num)
    ensures ConfirmedConsistent(b[Pos(row, col) := c])
  {
    var p := Pos(row, col);
    var b' := b[p := c];
    forall x, y | 0 <= x < 81 && 0 <= y < 81 && Peers(x, y) && b'[x].solved && b'[y].solved
      ensures b'[x].num != b'[y].num
    {
      if x == p {
        assert Peers(9 * row + col, y);
      } else if y == p {
        assert Peers(9 * row + col, x);
      }
    }
  }

  /** Unconfirming a cell cannot break consistency. */
  lemma ResetKeepsConsistency(b: Board, p: int, c: Cell)
    requires |b| == 81 && 0 <= p < 81 && ConfirmedConsistent(b) && !c.solved
    ensures ConfirmedConsistent(b[p := c])
  {
  }

  /** Whether the cells before p are confirmed does not depend on cell p. */
  lemma ConfirmedBeforeWrite(b: Board, p: int, c: Cell)
    requires 0 <= p < |b|
    ensures ConfirmedBefore(b[p := c], p) == ConfirmedBefore(b, p)
  {
    assert forall q :: 0 <= q < p ==> b[p := c][q] == b[q];
  }

  /** The least candidate is an allowed digit. */
  lemma FirstOptionAllowed(b: Board, row: int, col: int)
    requires |b| == 81 && 0 <= row < 9 && 0 <= col < 9 && |Options(b, row, col)| > 0
    ensures 1 <= Options(b, row, col)[0] <= 9 && Allowed(b, row, col, Options(b, row, col)[0])
  {
    OptionsSpec(b, row, col);
    assert Options(b, row, col)[0] in Options(b, row, col);
  }
}
