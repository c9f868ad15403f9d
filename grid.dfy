/**
 * Rules of one standard 3x3 tic-tac-toe grid, as values.
 *
 * A grid is a list of three rows of three cells, indexed `g[y][x]`; a cell is
 * ' ' (open), 'X' or 'O'.
 */
module Grid {
  import opened Coords

  type Cells = seq<seq<char>>

  predicate IsMark(c: char) {
    c == 'X' || c == 'O'
  }

  predicate IsCell(c: char) {
    c == ' ' || IsMark(c)
  }

  /** Three rows of three cells, each open, 'X' or 'O'. */
  predicate WellFormed(g: Cells) {
    |g| == 3 &&
    forall y | 0 <= y < 3 :: |g[y]| == 3 && forall x | 0 <= x < 3 :: IsCell(g[y][x])
  }

  /** The grid every new grid starts as. */
  function EmptyGrid(): (g: Cells)
    ensures WellFormed(g)
    ensures forall y, x | 0 <= y < 3 && 0 <= x < 3 :: g[y][x] == ' '
  {
    [[' ', ' ', ' '], [' ', ' ', ' '], [' ', ' ', ' ']]
  }

  /** The cell with grid number `n`. */
  function At(g: Cells, n: int): char
    requires WellFormed(g) && 1 <= n <= 9
  {
    var (x, y) := GridXY(n); g[y][x]
  }

  /** Some cell is open. */
  predicate HasBlank(g: Cells)
    requires WellFormed(g)
  {
    exists y, x | 0 <= y < 3 && 0 <= x < 3 :: g[y][x] == ' '
  }

  lemma HasBlankAt(g: Cells)
    requires WellFormed(g)
    ensures HasBlank(g) <==> exists n | 1 <= n <= 9 :: At(g, n) == ' '
  {
    if HasBlank(g) {
      var y, x :| 0 <= y < 3 && 0 <= x < 3 && g[y][x] == ' ';
      CoordRoundTrip(x, y);
      assert At(g, MNum(x, y)) == ' ';
    }
  }

  // ---------------------------------------------------------------------------
  // Open cells (the source's `moves`)
  // ---------------------------------------------------------------------------

  predicate Increasing(s: seq<int>) {
    forall i, j | 0 <= i < j < |s| :: s[i] < s[j]
  }

  /** The open cells among numbers 1..n, in ascending order (the source's
      scan of the cells in number order). */
  function Open(g: Cells, n: nat): (r: seq<int>)
    requires WellFormed(g) && n <= 9
    ensures |r| <= n
  {
    if n == 0 then []
    else Open(g, n - 1) + (if At(g, n) == ' ' then [n] else [])
  }

  /** The scan up to `n` finds exactly the open cells among 1..n, in
      ascending order. */
  lemma {:induction false} OpenSpec(g: Cells, n: nat)
    requires WellFormed(g) && n <= 9
    ensures forall i | 0 <= i < |Open(g, n)| :: 1 <= Open(g, n)[i] <= n && At(g, Open(g, n)[i]) == ' '
    ensures forall k | 1 <= k <= n && At(g, k) == ' ' :: k in Open(g, n)
    ensures Increasing(Open(g, n))
  {
    if n > 0 {
      OpenSpec(g, n - 1);
    }
  }

  /** Every open cell, in ascending order. */
  function OpenCells(g: Cells): (r: seq<int>)
    requires WellFormed(g)
    ensures forall k :: k in r <==> 1 <= k <= 9 && At(g, k) == ' '
    ensures forall i | 0 <= i < |r| :: 1 <= r[i] <= 9
    ensures Increasing(r)
  {
    OpenSpec(g, 9);
    Open(g, 9)
  }

  /** On a grid with every cell open, the open cells among 1..n are 1..n. */
  lemma {:induction false} OpenOfBlank(g: Cells, n: nat)
    requires WellFormed(g) && n <= 9
    requires forall k | 1 <= k <= 9 :: At(g, k) == ' '
    ensures |Open(g, n)| == n
    ensures forall i | 0 <= i < n :: Open(g, n)[i] == i + 1
  {
    if n > 0 {
      OpenOfBlank(g, n - 1);
      assert At(g, n) == ' ';
    }
  }

  /** A grid with every cell open has every number as a legal move. */
  lemma AllOpen(g: Cells)
    requires WellFormed(g)
    requires forall y, x | 0 <= y < 3 && 0 <= x < 3 :: g[y][x] == ' '
    ensures OpenCells(g) == [1, 2, 3, 4, 5, 6, 7, 8, 9]
  {
    assert forall k | 1 <= k <= 9 :: At(g, k) == ' ';
    OpenOfBlank(g, 9);
  }

  /** A new grid has every cell open. */
  lemma EmptyGridOpenCells()
    ensures OpenCells(EmptyGrid()) == [1, 2, 3, 4, 5, 6, 7, 8, 9]
  {
    AllOpen(EmptyGrid());
  }

  /** There are open cells exactly when some cell is open. */
  lemma OpenCellsNonEmpty(g: Cells)
    requires WellFormed(g)
    ensures OpenCells(g) != [] <==> HasBlank(g)
  {
    HasBlankAt(g);
    if HasBlank(g) {
      var n :| 1 <= n <= 9 && At(g, n) == ' ';
      assert n in OpenCells(g);
    }
    if OpenCells(g) != [] {
      var k := OpenCells(g)[0];
      assert k in OpenCells(g);
      assert At(g, k) == ' ';
    }
  }

  // ---------------------------------------------------------------------------
  // Placing a mark (the source's `move`)
  // ---------------------------------------------------------------------------

  /** The grid with cell `m` set to `p`. */
  function Place(g: Cells, m: int, p: char): (h: Cells)
    requires WellFormed(g) && 1 <= m <= 9 && IsCell(p)
    ensures WellFormed(h)
    ensures forall k | 1 <= k <= 9 :: At(h, k) == if k == m then p else At(g, k)
  {
    var (x, y) := GridXY(m); g[y := g[y][x := p]]
  }

  /** Attempt to take cell `m` for player `p`: the flag says whether the move
      was taken, and the grid is the grid afterwards. */
  function Move(g: Cells, m: int, p: char): (r: (bool, Cells))
    requires WellFormed(g)
    ensures r.0 <==> IsMark(p) && 1 <= m <= 9 && At(g, m) == ' '
    ensures WellFormed(r.1)
    ensures r.0 ==> r.1 == Place(g, m, p)
    ensures !r.0 ==> r.1 == g
  {
    if !IsMark(p) || m !in OpenCells(g) then (false, g)
    else (true, Place(g, m, p))
  }

  /** `h` keeps every mark of `g`. */
  predicate Extends(g: Cells, h: Cells)
    requires WellFormed(g) && WellFormed(h)
  {
    forall y, x | 0 <= y < 3 && 0 <= x < 3 :: g[y][x] != ' ' ==> h[y][x] == g[y][x]
  }

  /** A mark is never overwritten: a move keeps every mark already on the grid,
      and changes no cell but the one it takes. */
  lemma MoveIsWriteOnce(g: Cells, m: int, p: char)
    requires WellFormed(g)
    ensures Extends(g, Move(g, m, p).1)
    ensures forall k | 1 <= k <= 9 && k != m :: At(Move(g, m, p).1, k) == At(g, k)
  {
    var h := Move(g, m, p).1;
    forall y, x | 0 <= y < 3 && 0 <= x < 3 && g[y][x] != ' '
      ensures h[y][x] == g[y][x]
    {
      CoordRoundTrip(x, y);
      assert At(h, MNum(x, y)) == At(g, MNum(x, y));
    }
  }

  /** The open cells of `Open(Place(g, m, p), n)` are those of `Open(g, n)`
      without `m`. */
  lemma {:induction false} OpenAfterPlace(g: Cells, m: int, p: char, n: nat)
    requires WellFormed(g) && 1 <= m <= 9 && At(g, m) == ' ' && IsMark(p) && n <= 9
    ensures |Open(Place(g, m, p), n)| == if m <= n then |Open(g, n)| - 1 else |Open(g, n)|
  {
    if n > 0 {
      OpenAfterPlace(g, m, p, n - 1);
    }
  }

  /** A successful move removes exactly its own cell from the open cells. */
  lemma MoveRemovesCell(g: Cells, m: int, p: char)
    requires WellFormed(g) && Move(g, m, p).0
    ensures forall k :: k in OpenCells(Move(g, m, p).1) <==> k in OpenCells(g) && k != m
    ensures |OpenCells(Move(g, m, p).1)| == |OpenCells(g)| - 1
  {
    OpenAfterPlace(g, m, p, 9);
  }

  // ---------------------------------------------------------------------------
  // Winner (the source's `winner`)
  // ---------------------------------------------------------------------------

  function Column(g: Cells, x: int): seq<char>
    requires WellFormed(g) && 0 <= x < 3
  {
    [g[0][x], g[1][x], g[2][x]]
  }

  /** The eight lines in the order they are scanned: the three rows, the three
      columns, the main diagonal, the anti-diagonal. */
  function Lines(g: Cells): (ls: seq<seq<char>>)
    requires WellFormed(g)
    ensures |ls| == 8
    ensures forall k | 0 <= k < 8 :: |ls[k]| == 3 && forall i | 0 <= i < 3 :: IsCell(ls[k][i])
  {
    [g[0], g[1], g[2], Column(g, 0), Column(g, 1), Column(g, 2),
     [g[0][0], g[1][1], g[2][2]], [g[0][2], g[1][1], g[2][0]]]
  }

  /** A line filled with one non-space symbol. */
  predicate HasWin(l: seq<char>) {
    |l| > 0 && l[0] != ' ' && forall i | 0 <= i < |l| :: l[i] == l[0]
  }

  /** The index of the first winning line at or after `i`, or `|ls|` if none. */
  function FirstWin(ls: seq<seq<char>>, i: nat): (k: nat)
    requires i <= |ls|
    ensures i <= k <= |ls|
    ensures k < |ls| ==> HasWin(ls[k])
    ensures forall j | i <= j < k :: !HasWin(ls[j])
    decreases |ls| - i
  {
    if i == |ls| then i
    else if HasWin(ls[i]) then i
    else FirstWin(ls, i + 1)
  }

  /** Player `p` has filled some line. */
  predicate HasLine(g: Cells, p: char)
    requires WellFormed(g)
  {
    exists k | 0 <= k < 8 :: HasWin(Lines(g)[k]) && Lines(g)[k][0] == p
  }

  /** 'X' or 'O' for the symbol of the first filled line (rows, then columns,
      then the diagonals); otherwise 'N' while a cell is open and 'S' (scratch,
      a tie) when none is. `WinnerScan` states this. */
  function Winner(g: Cells): (w: char)
    requires WellFormed(g)
    ensures w == 'X' || w == 'O' || w == 'S' || w == 'N'
  {
    var ls := Lines(g);
    var k := FirstWin(ls, 0);
    if k < 8 then ls[k][0]
    else if HasBlank(g) then 'N'
    else 'S'
  }

  /** The winner is the symbol of the first filled line in scanning order; a
      grid with no filled line is open ('N') while a cell is open, and scratch
      ('S') otherwise. */
  lemma WinnerScan(g: Cells)
    requires WellFormed(g)
    ensures IsMark(Winner(g)) <==> exists k | 0 <= k < 8 :: HasWin(Lines(g)[k])
    ensures IsMark(Winner(g)) ==> exists k | 0 <= k < 8 ::
              HasWin(Lines(g)[k]) && Lines(g)[k][0] == Winner(g) &&
              forall j | 0 <= j < k :: !HasWin(Lines(g)[j])
    ensures Winner(g) == 'N' <==> !IsMark(Winner(g)) && HasBlank(g)
    ensures Winner(g) == 'S' <==> !IsMark(Winner(g)) && !HasBlank(g)
  {
    var k := FirstWin(Lines(g), 0);
    if k < 8 {
      assert HasWin(Lines(g)[k]);
    }
  }

  /** A player holds a grid exactly when they have filled a line; the grid's
      winner then is a mark. */
  lemma WinnerIsMarkIffLine(g: Cells)
    requires WellFormed(g)
    ensures IsMark(Winner(g)) ==> HasLine(g, Winner(g))
    ensures forall p :: HasLine(g, p) ==> IsMark(Winner(g))
  {
    WinnerScan(g);
  }

  /** A filled line stays filled when marks are added. */
  lemma LineIsSticky(g: Cells, h: Cells, p: char)
    requires WellFormed(g) && WellFormed(h) && Extends(g, h) && HasLine(g, p)
    ensures HasLine(h, p)
  {
    var k :| 0 <= k < 8 && HasWin(Lines(g)[k]) && Lines(g)[k][0] == p;
    assert Lines(h)[k] == Lines(g)[k];
  }

  /** Once a grid is won it stays won (by someone) whatever is added. */
  lemma WinIsSticky(g: Cells, h: Cells)
    requires WellFormed(g) && WellFormed(h) && Extends(g, h) && IsMark(Winner(g))
    ensures IsMark(Winner(h))
  {
    WinnerIsMarkIffLine(g);
    LineIsSticky(g, h, Winner(g));
    WinnerIsMarkIffLine(h);
  }

  /** A new grid is open. */
  lemma EmptyGridWinner()
    ensures Winner(EmptyGrid()) == 'N'
  {
    var e := EmptyGrid();
    WinnerScan(e);
    assert e[0][0] == ' ';
    forall k | 0 <= k < 8
      ensures !HasWin(Lines(e)[k])
    {
      assert Lines(e)[k][0] == ' ';
    }
  }

  /** A grid that is open has a legal move; a scratch grid has none. */
  lemma WinnerOpenCells(g: Cells)
    requires WellFormed(g)
    ensures Winner(g) == 'N' ==> OpenCells(g) != []
    ensures Winner(g) == 'S' ==> OpenCells(g) == []
  {
    WinnerScan(g);
    OpenCellsNonEmpty(g);
  }

  /** A full top row of one mark is a win for that mark, whatever else is on
      the grid (rows are scanned first). */
  lemma TopRowWins(g: Cells, p: char)
    requires WellFormed(g) && IsMark(p) && g[0] == [p, p, p]
    ensures Winner(g) == p
  {
    WinnerScan(g);
    assert HasWin(Lines(g)[0]);
  }
}
