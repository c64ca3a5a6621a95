/**
 * The solver itself: the recursive backtracking search that fills the board
 * in place, and the exclusion-set helper it calls at every empty cell. The
 * methods work on a 9×9 array of characters and are proved against the
 * functional search of module `Backtracking`.
 */
module Solution {
  import opened Board
  import opened Backtracking

  /** A 9×9 board whose cells are all blank or digits, as the solver expects. */
  ghost predicate IsBoard(board: array2<char>)
    reads board
  {
    && board.Length0 == Size && board.Length1 == Size
    && forall i, j :: 0 <= i < Size && 0 <= j < Size ==> IsCell(board[i, j])
  }

  /** The current contents of the array as a board value. */
  ghost function Snapshot(board: array2<char>): (g: Grid)
    reads board
    requires board.Length0 == Size && board.Length1 == Size
    ensures |g| == Size && forall i :: 0 <= i < Size ==> |g[i]| == Size
    ensures forall i, j :: 0 <= i < Size && 0 <= j < Size ==> g[i][j] == board[i, j]
    ensures IsBoard(board) ==> IsGrid(g)
  {
    seq(Size, i requires 0 <= i < Size reads board =>
      seq(Size, j requires 0 <= j < Size reads board => board[i, j]))
  }

  /** Two boards of the solver's shape with equal cells are equal. */
  lemma GridEquality(g: Grid, h: Grid)
    requires |g| == Size && forall i :: 0 <= i < Size ==> |g[i]| == Size
    requires |h| == Size && forall i :: 0 <= i < Size ==> |h[i]| == Size
    requires forall i, j :: 0 <= i < Size && 0 <= j < Size ==> g[i][j] == h[i][j]
    ensures g == h
  {
    forall i | 0 <= i < Size
      ensures g[i] == h[i]
    {
      assert forall j :: 0 <= j < Size ==> g[i][j] == h[i][j];
    }
  }

  /** The array holds exactly the well-formed board value `g`. */
  ghost predicate Holds(board: array2<char>, g: Grid)
    reads board
  {
    && board.Length0 == Size && board.Length1 == Size
    && IsGrid(g)
    && forall i, j :: 0 <= i < Size && 0 <= j < Size ==> board[i, j] == g[i][j]
  }

  /** One of the first `n` elements of `s` is `c`. */
  ghost predicate SeenAmong(s: seq<char>, n: int, c: char)
    requires 0 <= n <= |s|
  {
    exists k :: 0 <= k < n && s[k] == c
  }

  /** Looking at one more element of `s`. */
  lemma SeenAmongStep(s: seq<char>, n: int, c: char)
    requires 0 <= n < |s|
    ensures SeenAmong(s, n + 1, c) <==> SeenAmong(s, n, c) || s[n] == c
  {
    if SeenAmong(s, n + 1, c) && s[n] != c {
      var k :| 0 <= k < n + 1 && s[k] == c;
      assert k < n;
    }
  }

  /**
   * The exclusion set of the cell `(x, y)` of the board `g` that the array
   * holds: slot `d` is set exactly when digit `d + 1` already stands in row
   * `x`, in column `y` or in the box of `(x, y)`. Blank cells mark nothing and
   * the board is only read.
   */
  method GetTakenOptions(board: array2<char>, x: int, y: int, ghost g: Grid) returns (taken: seq<bool>)
    requires Holds(board, g) && 0 <= x < Size && 0 <= y < Size
    ensures |taken| == Size
    ensures forall d :: 0 <= d < Size ==> (taken[d] <==> Excluded(g, x, y, Digit(d)))
  {
    ghost var row, column, box := RowCells(g, x), ColumnCells(g, y), BoxCells(g, x, y);
    var seen := new bool[Size](_ => false);
    for i := 0 to Size
      invariant forall d :: 0 <= d < Size ==> (seen[d] <==> SeenAmong(row, i, Digit(d)))
    {
      var item := board[x, i];  // row items
      assert item == row[i];
      forall d | 0 <= d < Size { SeenAmongStep(row, i, Digit(d)); }
      if item == Blank {
        continue;
      }
      seen[item as int - '1' as int] := true;
    }
    for i := 0 to Size
      invariant forall d :: 0 <= d < Size ==>
        (seen[d] <==> SeenAmong(row, Size, Digit(d)) || SeenAmong(column, i, Digit(d)))
    {
      var item := board[i, y];  // column items
      assert item == column[i];
      forall d | 0 <= d < Size { SeenAmongStep(column, i, Digit(d)); }
      if item == Blank {
        continue;
      }
      seen[item as int - '1' as int] := true;
    }
    for i := 0 to Size
      invariant forall d :: 0 <= d < Size ==>
        (seen[d] <==> SeenAmong(row, Size, Digit(d)) || SeenAmong(column, Size, Digit(d)) ||
                      SeenAmong(box, i, Digit(d)))
    {
      var item := board[BoxRow(x, i), BoxColumn(y, i)];  // box items
      assert item == box[i];
      forall d | 0 <= d < Size { SeenAmongStep(box, i, Digit(d)); }
      if item == Blank {
        continue;
      }
      seen[item as int - '1' as int] := true;
    }
    BoxEnumeration(x, y);
    taken := seen[..];
  }

  /**
   * Searches on from position `(x, y)` of the board `g` that the array holds,
   * filling blank cells in place. The outcome and the final board are those
   * of `Search`; a failed search leaves the array holding `g` again, cell for
   * cell.
   */
  method SolveFrom(board: array2<char>, x: int, y: int, ghost g: Grid) returns (solved: bool)
    requires Holds(board, g) && 0 <= x < Size && 0 <= y <= Size
    modifies board
    decreases Size * Size - Index(x, y)
    ensures solved == Search(g, x, y).Some?
    ensures Holds(board, if solved then Search(g, x, y).value else g)
  {
    if y == Size {
      return true;
    }

    var xNext := x + 1;
    var yNext := y;
    if xNext >= Size {
      xNext := 0;
      yNext := yNext + 1;
    }
    assert (xNext, yNext) == Next(x, y);

    if board[x, y] != Blank {
      solved := SolveFrom(board, xNext, yNext, g);
      return;
    }

    var taken := GetTakenOptions(board, x, y, g);
    for i := 0 to Size
      invariant IsCell(board[x, y]) && Holds(board, Fill(g, x, y, board[x, y]))
      invariant Search(g, x, y) == TryCandidates(g, x, y, i)
    {
      if taken[i] {
        continue;
      }
      board[x, y] := Digit(i);
      var found := SolveFrom(board, xNext, yNext, Fill(g, x, y, Digit(i)));
      if found {
        return true;
      }
    }

    board[x, y] := Blank;
    solved := false;
  }

  /**
   * Fills the board in place. The result of the search is dropped: the board
   * ends up as `Search` leaves it, so a puzzle with a solution ends up solved
   * and a clash-free puzzle without one ends up unchanged.
   */
  method SolveSudoku(board: array2<char>)
    requires IsBoard(board)
    modifies board
    ensures IsBoard(board)
    ensures Search(old(Snapshot(board)), 0, 0).Some? ==> Snapshot(board) == Search(old(Snapshot(board)), 0, 0).value
    ensures Search(old(Snapshot(board)), 0, 0).None? ==> Snapshot(board) == old(Snapshot(board))
    ensures (exists s :: IsSolutionOf(s, old(Snapshot(board)))) ==>
      IsSolutionOf(Snapshot(board), old(Snapshot(board)))
    ensures Consistent(old(Snapshot(board))) && !(exists s :: IsSolutionOf(s, old(Snapshot(board)))) ==>
      Snapshot(board) == old(Snapshot(board))
  {
    ghost var g := Snapshot(board);
    var solved := SolveFrom(board, 0, 0, g);
    ghost var r := if solved then Search(g, 0, 0).value else g;
    GridEquality(Snapshot(board), r);
    if exists s :: IsSolutionOf(s, g) {
      var s :| IsSolutionOf(s, g);
      SolvableIsConsistent(s, g);
      SearchComplete(g, s, 0, 0);
      SearchSound(g);
    } else if Consistent(g) {
      SearchDecides(g);
    }
  }
}
