/**
 * The 9×9 board the solver works on, as a value: cells, digits, positions,
 * the peers of a cell (its row, its column and its 3×3 box) and the rules a
 * solved Sudoku obeys.
 *
 * The board is indexed `g[x][y]` exactly as the solver indexes it: the solver
 * calls `g[x][..]` the row of `x` and `g[..][y]` the column of `y`.
 */
module Board {

  /** A board as a value; `IsGrid` says when it has the solver's shape. */
  type Grid = seq<seq<char>>

  /** Side of the board (`board_size`). */
  const Size := 9

  /** The marker of an empty cell. */
  const Blank := '.'

  predicate IsDigit(c: char) { '1' <= c <= '9' }

  /** What a cell may hold: the blank marker or a digit. */
  predicate IsCell(c: char) { c == Blank || IsDigit(c) }

  /** Candidate `i` (0-based) as the character the solver writes, `i + '1'`. */
  function Digit(i: int): (c: char)
    requires 0 <= i < Size
    ensures IsDigit(c) && c != Blank
    ensures c as int - '1' as int == i
  {
    ('1' as int + i) as char
  }

  /** The slot of a digit in the exclusion set, `item - '1'`; the inverse of `Digit`. */
  function DigitIndex(c: char): (i: int)
    requires IsDigit(c)
    ensures 0 <= i < Size && Digit(i) == c
  {
    c as int - '1' as int
  }

  /** A 9×9 board whose every cell is blank or a digit. */
  predicate IsGrid(g: Grid) {
    && |g| == Size
    && (forall x :: 0 <= x < Size ==> |g[x]| == Size)
    && (forall x, y :: 0 <= x < Size && 0 <= y < Size ==> IsCell(g[x][y]))
  }

  /** The linear position of `(x, y)` in the solver's visiting order: `x` moves fastest. */
  function Index(x: int, y: int): int { Size * y + x }

  /** The position after `(x, y)`: `x` advances and wraps to 0, carrying into `y`. */
  function Next(x: int, y: int): (n: (int, int))
    requires 0 <= x < Size && 0 <= y < Size
    ensures 0 <= n.0 < Size && 0 <= n.1 <= Size
    ensures Index(n.0, n.1) == Index(x, y) + 1
    ensures x + 1 == Size ==> n == (0, y + 1)
    ensures x + 1 < Size ==> n == (x + 1, y)
  {
    if x + 1 >= Size then (0, y + 1) else (x + 1, y)
  }

  /** Each in-range cell has its own position in 0..80. */
  lemma IndexInjective(x: int, y: int, i: int, j: int)
    requires 0 <= x < Size && 0 <= y <= Size && 0 <= i < Size && 0 <= j <= Size
    requires Index(x, y) == Index(i, j)
    ensures x == i && y == j
  {
  }

  /** `g` with the cell `(x, y)` set to `c` and every other cell as it was. */
  function Fill(g: Grid, x: int, y: int, c: char): (r: Grid)
    requires IsGrid(g) && 0 <= x < Size && 0 <= y < Size && IsCell(c)
    ensures IsGrid(r) && r[x][y] == c
    ensures forall i, j :: 0 <= i < Size && 0 <= j < Size && (i != x || j != y) ==> r[i][j] == g[i][j]
  {
    g[x := g[x][y := c]]
  }

  /** `(i, j)` lies in the same 3×3 box as `(x, y)`. */
  predicate SameBox(x: int, y: int, i: int, j: int) {
    x / 3 == i / 3 && y / 3 == j / 3
  }

  /** Two distinct cells that share a row, a column or a box. */
  predicate Peers(x: int, y: int, i: int, j: int) {
    (x != i || y != j) && (x == i || y == j || SameBox(x, y, i, j))
  }

  /** First index of the `k`-th cell of the box of `(x, y)`, as the solver enumerates it. */
  function BoxRow(x: int, k: int): int { (x / 3) * 3 + k % 3 }

  /** Second index of the `k`-th cell of the box of `(x, y)`, as the solver enumerates it. */
  function BoxColumn(y: int, k: int): int { (y / 3) * 3 + k / 3 }

  /**
   * The solver's box enumeration stays on the board, stays in the box of
   * `(x, y)`, reaches every cell of that box and reaches no cell twice.
   */
  lemma BoxEnumeration(x: int, y: int)
    requires 0 <= x < Size && 0 <= y < Size
    ensures forall k :: 0 <= k < Size ==>
      && 0 <= BoxRow(x, k) < Size && 0 <= BoxColumn(y, k) < Size
      && SameBox(x, y, BoxRow(x, k), BoxColumn(y, k))
    ensures forall i, j :: 0 <= i < Size && 0 <= j < Size && SameBox(x, y, i, j) ==>
      exists k :: 0 <= k < Size && BoxRow(x, k) == i && BoxColumn(y, k) == j
    ensures forall k, l :: 0 <= k < l < Size ==>
      BoxRow(x, k) != BoxRow(x, l) || BoxColumn(y, k) != BoxColumn(y, l)
  {
    forall i, j | 0 <= i < Size && 0 <= j < Size && SameBox(x, y, i, j)
      ensures exists k :: 0 <= k < Size && BoxRow(x, k) == i && BoxColumn(y, k) == j
    {
      var k := (j % 3) * 3 + i % 3;
      assert BoxRow(x, k) == i && BoxColumn(y, k) == j;
    }
  }

  predicate InRow(g: Grid, x: int, c: char)
    requires IsGrid(g) && 0 <= x < Size
  {
    exists j :: 0 <= j < Size && g[x][j] == c
  }

  predicate InColumn(g: Grid, y: int, c: char)
    requires IsGrid(g) && 0 <= y < Size
  {
    exists i :: 0 <= i < Size && g[i][y] == c
  }

  predicate InBox(g: Grid, x: int, y: int, c: char)
    requires IsGrid(g) && 0 <= x < Size && 0 <= y < Size
  {
    exists i, j :: 0 <= i < Size && 0 <= j < Size && SameBox(x, y, i, j) && g[i][j] == c
  }

  /** Digit `c` is already taken for the cell `(x, y)`: it occurs in its row, column or box. */
  predicate Excluded(g: Grid, x: int, y: int, c: char)
    requires IsGrid(g) && 0 <= x < Size && 0 <= y < Size
  {
    InRow(g, x, c) || InColumn(g, y, c) || InBox(g, x, y, c)
  }

  /**
   * For an empty cell, the exclusion set is exactly the set of digits held by
   * the cell's peers.
   */
  lemma ExcludedIffPeer(g: Grid, x: int, y: int, c: char)
    requires IsGrid(g) && 0 <= x < Size && 0 <= y < Size && g[x][y] == Blank && IsDigit(c)
    ensures Excluded(g, x, y, c) <==>
      exists i, j :: 0 <= i < Size && 0 <= j < Size && Peers(x, y, i, j) && g[i][j] == c
  {
    if Excluded(g, x, y, c) {
      if InRow(g, x, c) {
        var j :| 0 <= j < Size && g[x][j] == c;
        assert Peers(x, y, x, j);
      } else if InColumn(g, y, c) {
        var i :| 0 <= i < Size && g[i][y] == c;
        assert Peers(x, y, i, y);
      } else {
        var i, j :| 0 <= i < Size && 0 <= j < Size && SameBox(x, y, i, j) && g[i][j] == c;
        assert Peers(x, y, i, j);
      }
    }
  }

  /** No digit occurs twice among peers. */
  predicate Consistent(g: Grid)
    requires IsGrid(g)
  {
    forall x, y, i, j ::
      (0 <= x < Size && 0 <= y < Size && 0 <= i < Size && 0 <= j < Size &&
       Peers(x, y, i, j) && IsDigit(g[x][y])) ==> g[x][y] != g[i][j]
  }

  /** No cell at position `p` or later is blank. */
  predicate FilledFrom(g: Grid, p: int)
    requires IsGrid(g)
  {
    forall x, y :: 0 <= x < Size && 0 <= y < Size && p <= Index(x, y) ==> g[x][y] != Blank
  }

  /** A solved Sudoku: every cell holds a digit and no digit repeats among peers. */
  predicate Solved(g: Grid) {
    IsGrid(g) && FilledFrom(g, 0) && Consistent(g)
  }

  /** `s` keeps every digit that `g` holds. */
  predicate Extends(s: Grid, g: Grid)
    requires IsGrid(s) && IsGrid(g)
  {
    forall x, y :: 0 <= x < Size && 0 <= y < Size && g[x][y] != Blank ==> s[x][y] == g[x][y]
  }

  /** `s` is a solution of the puzzle `g`. */
  predicate IsSolutionOf(s: Grid, g: Grid)
    requires IsGrid(g)
  {
    Solved(s) && Extends(s, g)
  }

  /** Writing a digit that is not excluded into an empty cell keeps a consistent board consistent. */
  lemma PlaceKeepsConsistent(g: Grid, x: int, y: int, c: char)
    requires IsGrid(g) && Consistent(g)
    requires 0 <= x < Size && 0 <= y < Size && g[x][y] == Blank
    requires IsDigit(c) && !Excluded(g, x, y, c)
    ensures Consistent(Fill(g, x, y, c))
  {
    var r := Fill(g, x, y, c);
    ExcludedIffPeer(g, x, y, c);
    forall a, b, i, j |
      0 <= a < Size && 0 <= b < Size && 0 <= i < Size && 0 <= j < Size &&
      Peers(a, b, i, j) && IsDigit(r[a][b])
      ensures r[a][b] != r[i][j]
    {
      if a == x && b == y {
        assert r[i][j] == g[i][j];
      } else if i == x && j == y {
        assert Peers(i, j, a, b);
        assert r[a][b] == g[a][b];
      } else {
        assert r[a][b] == g[a][b] && r[i][j] == g[i][j];
      }
    }
  }

  /** A puzzle that has a solution has no repeated digit among its prefilled peers. */
  lemma SolvableIsConsistent(s: Grid, g: Grid)
    requires IsGrid(g) && IsSolutionOf(s, g)
    ensures Consistent(g)
  {
    forall x, y, i, j |
      0 <= x < Size && 0 <= y < Size && 0 <= i < Size && 0 <= j < Size &&
      Peers(x, y, i, j) && IsDigit(g[x][y])
      ensures g[x][y] != g[i][j]
    {
      assert s[x][y] == g[x][y];
      if g[i][j] != Blank {
        assert s[i][j] == g[i][j];
      }
    }
  }

  /**
   * The digit a solution puts into an empty cell of the puzzle is not excluded
   * there, and the solution still solves the puzzle with that digit written in.
   */
  lemma SolutionDigitAdmissible(s: Grid, g: Grid, x: int, y: int)
    requires IsGrid(g) && IsSolutionOf(s, g)
    requires 0 <= x < Size && 0 <= y < Size && g[x][y] == Blank
    ensures IsDigit(s[x][y]) && !Excluded(g, x, y, s[x][y])
    ensures IsSolutionOf(s, Fill(g, x, y, s[x][y]))
  {
    var c := s[x][y];
    assert Index(x, y) >= 0;
    ExcludedIffPeer(g, x, y, c);
  }

  /** The nine digits. */
  const Digits: set<char> := {'1', '2', '3', '4', '5', '6', '7', '8', '9'}

  /** There are nine digits, and `Digits` holds every one of them. */
  lemma DigitsComplete(c: char)
    requires IsDigit(c)
    ensures |Digits| == Size && c in Digits
  {
    var n := c as int - '1' as int;
    assert c == Digit(n);
    assert 0 <= n < 9;
  }

  /** No element of `s` occurs twice. */
  predicate Distinct(s: seq<char>) {
    forall k, l :: 0 <= k < l < |s| ==> s[k] != s[l]
  }

  /**
   * Pigeonhole: a sequence of distinct members of `t` as long as `t` has
   * elements contains every member of `t`.
   */
  lemma {:induction false} DistinctCovers(s: seq<char>, t: set<char>)
    requires Distinct(s) && |s| == |t|
    requires forall k :: 0 <= k < |s| ==> s[k] in t
    ensures forall c :: c in t ==> c in s
  {
    if |s| > 0 {
      var t' := t - {s[0]};
      assert t * {s[0]} == {s[0]};
      assert |t'| == |s[1..]|;
      DistinctCovers(s[1..], t');
      forall c | c in t ensures c in s {
        if c != s[0] {
          assert c in s[1..];
        }
      }
    }
  }

  /** The nine cells of row `x`. */
  function RowCells(g: Grid, x: int): (s: seq<char>)
    requires IsGrid(g) && 0 <= x < Size
    ensures |s| == Size && forall j :: 0 <= j < Size ==> s[j] == g[x][j]
  {
    g[x]
  }

  /** The nine cells of column `y`. */
  function ColumnCells(g: Grid, y: int): (s: seq<char>)
    requires IsGrid(g) && 0 <= y < Size
    ensures |s| == Size && forall i :: 0 <= i < Size ==> s[i] == g[i][y]
  {
    seq(Size, i requires 0 <= i < Size => g[i][y])
  }

  /** The nine cells of the box of `(x, y)`, in the solver's enumeration order. */
  function BoxCells(g: Grid, x: int, y: int): (s: seq<char>)
    requires IsGrid(g) && 0 <= x < Size && 0 <= y < Size
    ensures |s| == Size
    ensures forall k :: 0 <= k < Size ==>
      0 <= BoxRow(x, k) < Size && 0 <= BoxColumn(y, k) < Size && s[k] == g[BoxRow(x, k)][BoxColumn(y, k)]
  {
    BoxEnumeration(x, y);
    seq(Size, k requires 0 <= k < Size => g[BoxRow(x, k)][BoxColumn(y, k)])
  }

  /** Nine distinct digits are all nine digits. */
  lemma NineDistinctDigits(s: seq<char>, c: char)
    requires |s| == Size && Distinct(s) && forall k :: 0 <= k < Size ==> IsDigit(s[k])
    requires IsDigit(c)
    ensures exists k :: 0 <= k < Size && s[k] == c
  {
    DigitsComplete(c);
    DistinctCovers(s, Digits);
    assert c in s;
  }

  /**
   * In a solved Sudoku every row, every column and every box holds each of
   * the nine digits, and by consistency holds it exactly once.
   */
  lemma SolvedUnitsHoldEveryDigit(g: Grid, x: int, y: int, c: char)
    requires Solved(g) && 0 <= x < Size && 0 <= y < Size && IsDigit(c)
    ensures InRow(g, x, c) && InColumn(g, y, c) && InBox(g, x, y, c)
  {
    assert forall i, j :: 0 <= i < Size && 0 <= j < Size ==> IsDigit(g[i][j]) by {
      forall i, j | 0 <= i < Size && 0 <= j < Size ensures IsDigit(g[i][j]) {
        assert 0 <= Index(i, j);
      }
    }
    var row, column, box := RowCells(g, x), ColumnCells(g, y), BoxCells(g, x, y);
    assert Distinct(row) by {
      forall k, l | 0 <= k < l < Size ensures row[k] != row[l] {
        assert Peers(x, k, x, l);
      }
    }
    assert Distinct(column) by {
      forall k, l | 0 <= k < l < Size ensures column[k] != column[l] {
        assert Peers(k, y, l, y);
      }
    }
    BoxEnumeration(x, y);
    assert Distinct(box) by {
      forall k, l | 0 <= k < l < Size ensures box[k] != box[l] {
        assert Peers(BoxRow(x, k), BoxColumn(y, k), BoxRow(x, l), BoxColumn(y, l));
      }
    }
    NineDistinctDigits(row, c);
    NineDistinctDigits(column, c);
    NineDistinctDigits(box, c);
    var k :| 0 <= k < Size && box[k] == c;
    assert SameBox(x, y, BoxRow(x, k), BoxColumn(y, k));
  }
}
