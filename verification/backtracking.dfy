/**
 * The backtracking search of the solver as a function of the board it starts
 * from: the value the in-place search leaves behind, or `None` when it gives
 * up. `Search`, `TryCandidates` and `Attempt` follow the solver's recursion
 * step by step; the lemmas below say what that search achieves.
 */
module Backtracking {
  import opened Board

  datatype Option<T> = None | Some(value: T)

  /**
   * The outcome of the search from position `(x, y)` on: `Some` of the
   * finished board, or `None` when no candidate works out. `y == Size` means
   * that every position has been passed.
   */
  function Search(g: Grid, x: int, y: int): (r: Option<Grid>)
    requires IsGrid(g) && 0 <= x < Size && 0 <= y <= Size
    ensures r.Some? ==> IsGrid(r.value)
    decreases Size * Size - Index(x, y), 2, 0
  {
    if y == Size then Some(g)
    else if g[x][y] != Blank then
      var (xn, yn) := Next(x, y);
      Search(g, xn, yn)
    else TryCandidates(g, x, y, 0)
  }

  /** The candidate loop at the empty cell `(x, y)`, from candidate `i` on, in ascending order. */
  function TryCandidates(g: Grid, x: int, y: int, i: int): (r: Option<Grid>)
    requires IsGrid(g) && 0 <= x < Size && 0 <= y < Size && 0 <= i <= Size
    ensures r.Some? ==> IsGrid(r.value)
    decreases Size * Size - Index(x, y), 1, Size - i
  {
    if i == Size then None
    else if Excluded(g, x, y, Digit(i)) then TryCandidates(g, x, y, i + 1)
    else
      var r := Attempt(g, x, y, i);
      if r.Some? then r else TryCandidates(g, x, y, i + 1)
  }

  /** Write candidate `i` into `(x, y)` and search on from the next position. */
  function Attempt(g: Grid, x: int, y: int, i: int): (r: Option<Grid>)
    requires IsGrid(g) && 0 <= x < Size && 0 <= y < Size && 0 <= i < Size
    ensures r.Some? ==> IsGrid(r.value)
    decreases Size * Size - Index(x, y), 0, 0
  {
    var (xn, yn) := Next(x, y);
    Search(Fill(g, x, y, Digit(i)), xn, yn)
  }

  /**
   * The candidate loop returns the result of the first admissible candidate,
   * in ascending order, whose attempt succeeds; it fails exactly when every
   * admissible candidate's attempt fails.
   */
  lemma {:induction false} TryCandidatesFirstSuccess(g: Grid, x: int, y: int, i: int)
    requires IsGrid(g) && 0 <= x < Size && 0 <= y < Size && 0 <= i <= Size
    ensures TryCandidates(g, x, y, i).None? <==>
      forall d :: i <= d < Size && !Excluded(g, x, y, Digit(d)) ==> Attempt(g, x, y, d).None?
    ensures TryCandidates(g, x, y, i).Some? ==>
      exists d :: i <= d < Size && !Excluded(g, x, y, Digit(d)) &&
        Attempt(g, x, y, d) == TryCandidates(g, x, y, i) &&
        forall e :: i <= e < d && !Excluded(g, x, y, Digit(e)) ==> Attempt(g, x, y, e).None?
    decreases Size - i
  {
    if i < Size {
      TryCandidatesFirstSuccess(g, x, y, i + 1);
      if !Excluded(g, x, y, Digit(i)) && Attempt(g, x, y, i).Some? {
        assert i <= i < Size && !Excluded(g, x, y, Digit(i)) && Attempt(g, x, y, i) == TryCandidates(g, x, y, i);
      } else if TryCandidates(g, x, y, i).Some? {
        var d :| i + 1 <= d < Size && !Excluded(g, x, y, Digit(d)) &&
          Attempt(g, x, y, d) == TryCandidates(g, x, y, i + 1) &&
          forall e :: i + 1 <= e < d && !Excluded(g, x, y, Digit(e)) ==> Attempt(g, x, y, e).None?;
        assert i <= d < Size && !Excluded(g, x, y, Digit(d)) && Attempt(g, x, y, d) == TryCandidates(g, x, y, i);
      }
    }
  }

  /**
   * `r` differs from `g` only in the cells that are blank in `g` at position
   * `p` or later, and each of those holds a digit in `r`.
   */
  predicate FillsBlanksFrom(g: Grid, r: Grid, p: int)
    requires IsGrid(g)
  {
    && IsGrid(r)
    && forall i, j :: 0 <= i < Size && 0 <= j < Size ==>
         if g[i][j] == Blank && p <= Index(i, j) then IsDigit(r[i][j]) else r[i][j] == g[i][j]
  }

  /**
   * On success the search has written digits into exactly the blank cells at
   * or after its starting position and left every other cell, in particular
   * every prefilled one, as it was.
   */
  lemma {:induction false} SearchFillsBlanks(g: Grid, x: int, y: int)
    requires IsGrid(g) && 0 <= x < Size && 0 <= y <= Size
    requires Search(g, x, y).Some?
    ensures FillsBlanksFrom(g, Search(g, x, y).value, Index(x, y))
    ensures FilledFrom(Search(g, x, y).value, Index(x, y))
    decreases Size * Size - Index(x, y)
  {
    var r := Search(g, x, y).value;
    if y < Size {
      var (xn, yn) := Next(x, y);
      var h := g;
      if g[x][y] != Blank {
        SearchFillsBlanks(g, xn, yn);
      } else {
        TryCandidatesFirstSuccess(g, x, y, 0);
        var d :| 0 <= d < Size && !Excluded(g, x, y, Digit(d)) && Attempt(g, x, y, d) == Search(g, x, y);
        h := Fill(g, x, y, Digit(d));
        SearchFillsBlanks(h, xn, yn);
      }
      forall i, j | 0 <= i < Size && 0 <= j < Size
        ensures if g[i][j] == Blank && Index(x, y) <= Index(i, j) then IsDigit(r[i][j]) else r[i][j] == g[i][j]
      {
        if i == x && j == y {
          assert Index(i, j) < Index(xn, yn);
        } else {
          assert h[i][j] == g[i][j];
          if Index(i, j) == Index(x, y) { IndexInjective(i, j, x, y); }
        }
      }
    }
  }

  /** On success from an empty cell, the digit left there was admissible when it was written. */
  lemma SearchPlacementAdmissible(g: Grid, x: int, y: int)
    requires IsGrid(g) && 0 <= x < Size && 0 <= y < Size && g[x][y] == Blank
    requires Search(g, x, y).Some?
    ensures IsDigit(Search(g, x, y).value[x][y])
    ensures !Excluded(g, x, y, Search(g, x, y).value[x][y])
  {
    var (xn, yn) := Next(x, y);
    TryCandidatesFirstSuccess(g, x, y, 0);
    var d :| 0 <= d < Size && !Excluded(g, x, y, Digit(d)) && Attempt(g, x, y, d) == Search(g, x, y);
    SearchFillsBlanks(Fill(g, x, y, Digit(d)), xn, yn);
  }

  /**
   * Every repeated digit among peers of `r` was already there in `g`: both
   * cells of such a pair are prefilled in `g`.
   */
  predicate NoNewClash(g: Grid, r: Grid)
    requires IsGrid(g) && IsGrid(r)
  {
    forall a, b, i, j ::
      (0 <= a < Size && 0 <= b < Size && 0 <= i < Size && 0 <= j < Size &&
       Peers(a, b, i, j) && IsDigit(r[a][b]) && r[a][b] == r[i][j]) ==>
        g[a][b] != Blank && g[i][j] != Blank
  }

  /**
   * Every digit the search writes differs from every digit among its peers,
   * whatever the prefilled digits are: on success, any clash in the result
   * is between two cells that were prefilled at the start.
   */
  lemma {:induction false} SearchCreatesNoClash(g: Grid, x: int, y: int)
    requires IsGrid(g) && 0 <= x < Size && 0 <= y <= Size
    requires Search(g, x, y).Some?
    ensures NoNewClash(g, Search(g, x, y).value)
    decreases Size * Size - Index(x, y)
  {
    var r := Search(g, x, y).value;
    if y < Size {
      var (xn, yn) := Next(x, y);
      if g[x][y] != Blank {
        SearchCreatesNoClash(g, xn, yn);
      } else {
        TryCandidatesFirstSuccess(g, x, y, 0);
        var d :| 0 <= d < Size && !Excluded(g, x, y, Digit(d)) && Attempt(g, x, y, d) == Search(g, x, y);
        var h := Fill(g, x, y, Digit(d));
        SearchCreatesNoClash(h, xn, yn);
        SearchFillsBlanks(h, xn, yn);
        ExcludedIffPeer(g, x, y, Digit(d));
        assert r[x][y] == Digit(d) by { assert Index(x, y) < Index(xn, yn); }
        forall a, b, i, j |
          0 <= a < Size && 0 <= b < Size && 0 <= i < Size && 0 <= j < Size &&
          Peers(a, b, i, j) && IsDigit(r[a][b]) && r[a][b] == r[i][j]
          ensures g[a][b] != Blank && g[i][j] != Blank
        {
          assert h[a][b] != Blank && h[i][j] != Blank;
        }
      }
    }
  }

  /** The search never creates a repeated digit among peers. */
  lemma {:induction false} SearchKeepsConsistent(g: Grid, x: int, y: int)
    requires IsGrid(g) && Consistent(g) && 0 <= x < Size && 0 <= y <= Size
    requires Search(g, x, y).Some?
    ensures Consistent(Search(g, x, y).value)
    decreases Size * Size - Index(x, y)
  {
    if y < Size {
      var (xn, yn) := Next(x, y);
      if g[x][y] != Blank {
        SearchKeepsConsistent(g, xn, yn);
      } else {
        TryCandidatesFirstSuccess(g, x, y, 0);
        var d :| 0 <= d < Size && !Excluded(g, x, y, Digit(d)) && Attempt(g, x, y, d) == Search(g, x, y);
        PlaceKeepsConsistent(g, x, y, Digit(d));
        SearchKeepsConsistent(Fill(g, x, y, Digit(d)), xn, yn);
      }
    }
  }

  /**
   * Soundness: when the prefilled digits of the puzzle do not clash, a
   * successful search leaves a solution of the puzzle.
   */
  lemma SearchSound(g: Grid)
    requires IsGrid(g) && Consistent(g)
    requires Search(g, 0, 0).Some?
    ensures IsSolutionOf(Search(g, 0, 0).value, g)
  {
    SearchFillsBlanks(g, 0, 0);
    SearchKeepsConsistent(g, 0, 0);
  }

  /**
   * Completeness: if the board has any solution, the search from any position
   * succeeds.
   */
  lemma {:induction false} SearchComplete(g: Grid, s: Grid, x: int, y: int)
    requires IsGrid(g) && IsSolutionOf(s, g) && 0 <= x < Size && 0 <= y <= Size
    ensures Search(g, x, y).Some?
    decreases Size * Size - Index(x, y)
  {
    if y < Size {
      var (xn, yn) := Next(x, y);
      if g[x][y] != Blank {
        SearchComplete(g, s, xn, yn);
      } else {
        SolutionDigitAdmissible(s, g, x, y);
        var d := DigitIndex(s[x][y]);
        SearchComplete(Fill(g, x, y, Digit(d)), s, xn, yn);
        assert !Excluded(g, x, y, Digit(d)) && Attempt(g, x, y, d).Some?;
        TryCandidatesFirstSuccess(g, x, y, 0);
      }
    }
  }

  /** A failed search means the puzzle has no solution at all. */
  lemma FailureMeansUnsolvable(g: Grid)
    requires IsGrid(g) && Search(g, 0, 0).None?
    ensures forall s :: !IsSolutionOf(s, g)
  {
    forall s | IsSolutionOf(s, g)
      ensures false
    {
      SearchComplete(g, s, 0, 0);
    }
  }

  /**
   * For a puzzle whose prefilled digits do not clash, the search succeeds
   * exactly when a solution exists.
   */
  lemma SearchDecides(g: Grid)
    requires IsGrid(g) && Consistent(g)
    ensures Search(g, 0, 0).Some? <==> exists s :: IsSolutionOf(s, g)
  {
    if Search(g, 0, 0).Some? {
      SearchSound(g);
    } else {
      FailureMeansUnsolvable(g);
    }
  }

  /** A board with no blank left from `(x, y)` on is accepted as it is. */
  lemma {:induction false} SearchIdempotent(g: Grid, x: int, y: int)
    requires IsGrid(g) && 0 <= x < Size && 0 <= y <= Size
    requires FilledFrom(g, Index(x, y))
    ensures Search(g, x, y) == Some(g)
    decreases Size * Size - Index(x, y)
  {
    if y < Size {
      var (xn, yn) := Next(x, y);
      SearchIdempotent(g, xn, yn);
    }
  }
}
