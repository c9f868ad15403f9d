/**
 * The mutable game objects: a tic-tac-toe grid whose cells are written in
 * place, and the ultimate board that owns nine of them plus the meta-grid.
 * Every method is proved against the value-level rules in `Grid` and `Rules`.
 */
module Utt {
  import opened Coords
  import Grid
  import Rules

  /** One 3x3 tic-tac-toe grid. */
  class XOGrid {
    var grid: Grid.Cells

    ghost predicate Valid()
      reads this
    {
      Grid.WellFormed(grid)
    }

    /** A new grid with every cell open. */
    constructor ()
      ensures grid == Grid.EmptyGrid()
    {
      grid := [[' ', ' ', ' '], [' ', ' ', ' '], [' ', ' ', ' ']];
    }

    /** 'X', 'O', 'S' (tie) or 'N' (open); see `Grid.Winner`. */
    function Winner(): (w: char)
      reads this
      requires Valid()
      ensures w == 'X' || w == 'O' || w == 'S' || w == 'N'
      ensures w == Grid.Winner(grid)
    {
      Grid.Winner(grid)
    }

    /** The numbers of the open cells, ascending. */
    method Moves() returns (result: seq<int>)
      requires Valid()
      ensures result == Grid.OpenCells(grid)
      ensures forall k :: k in result <==> 1 <= k <= 9 && Grid.At(grid, k) == ' '
    {
      result := [];
      for i := 1 to 10
        invariant result == Grid.Open(grid, i - 1)
      {
        var (x, y) := GridXY(i);
        if grid[y][x] == ' ' {
          result := result + [i];
        }
      }
      assert result == Grid.OpenCells(grid);
    }

    /** Take cell `m` for `player`, or refuse and change nothing. */
    method Move(m: int, player: char) returns (ok: bool)
      requires Valid()
      modifies this
      ensures Valid()
      ensures (ok, grid) == Grid.Move(old(grid), m, player)
    {
      var ms := Moves();
      if !(player == 'X' || player == 'O') || m !in ms {
        return false;
      }
      var (x, y) := GridXY(m);
      grid := grid[y := grid[y][x := player]];
      ok := true;
    }
  }

  /** The ultimate board: nine grids `board[y][x]`, the meta-grid `outer` and
      the last move taken. */
  class UTTBoard {
    const board: seq<seq<XOGrid>>
    const outer: XOGrid
    var lastMove: Rules.Option<int>
    ghost const Repr: set<object>

    /** The ten grids exist, are distinct and make up `Repr`. */
    ghost predicate Shaped()
      reads this
    {
      |board| == 3 && (forall y | 0 <= y < 3 :: |board[y]| == 3) &&
      Repr == {outer, board[0][0], board[0][1], board[0][2], board[1][0], board[1][1],
               board[1][2], board[2][0], board[2][1], board[2][2]} &&
      (forall y, x | 0 <= y < 3 && 0 <= x < 3 :: board[y][x] != outer) &&
      (forall y, x, y', x' | 0 <= y < 3 && 0 <= x < 3 && 0 <= y' < 3 && 0 <= x' < 3 ::
         board[y][x] == board[y'][x'] ==> y == y' && x == x')
    }

    /** The position the objects hold. */
    ghost function Model(): Rules.Game
      reads this, Repr
      requires Shaped()
    {
      Rules.Game(
        [[board[0][0].grid, board[0][1].grid, board[0][2].grid],
         [board[1][0].grid, board[1][1].grid, board[1][2].grid],
         [board[2][0].grid, board[2][1].grid, board[2][2].grid]],
        outer.grid, lastMove)
    }

    /** The objects hold a consistent position. */
    ghost predicate Valid()
      reads this, Repr
    {
      Shaped() && Rules.Valid(Model())
    }

    /** The first position: nine new grids, a new meta-grid, no last move. */
    constructor ()
      ensures Shaped() && fresh(Repr)
      ensures Model() == Rules.Initial()
      ensures Valid()
    {
      var r0 := NewRow();
      var r1 := NewRow();
      var r2 := NewRow();
      var o := new XOGrid();
      board := [r0, r1, r2];
      outer := o;
      lastMove := Rules.None;
      Repr := {o, r0[0], r0[1], r0[2], r1[0], r1[1], r1[2], r2[0], r2[1], r2[2]};
      new;
      assert Shaped();
      InitialModel();
    }

    /** A row of three new, distinct grids. */
    static method NewRow() returns (row: seq<XOGrid>)
      ensures |row| == 3 && row[0] != row[1] && row[0] != row[2] && row[1] != row[2]
      ensures forall i | 0 <= i < 3 :: fresh(row[i]) && row[i].grid == Grid.EmptyGrid()
    {
      var g0 := new XOGrid();
      var g1 := new XOGrid();
      var g2 := new XOGrid();
      row := [g0, g1, g2];
    }

    /** Ten new grids and no last move hold the first position. */
    lemma InitialModel()
      requires Shaped() && lastMove.None? && outer.grid == Grid.EmptyGrid()
      requires forall y, x | 0 <= y < 3 && 0 <= x < 3 :: board[y][x].grid == Grid.EmptyGrid()
      ensures Model() == Rules.Initial()
    {
      var e := Grid.EmptyGrid();
      assert Model().subs == [[e, e, e], [e, e, e], [e, e, e]];
    }

    /** Grid object `b` holds sub-grid `b` of the model. */
    lemma SubAt(b: int)
      requires Shaped() && Rules.WellFormed(Model()) && 1 <= b <= 9
      ensures var (x, y) := GridXY(b);
              board[y][x].grid == Rules.Sub(Model(), b) && board[y][x].Valid()
    {
    }

    /** The sub-grids the next move may go to. */
    method ActiveBoards() returns (boards: seq<int>)
      requires Shaped() && Rules.WellFormed(Model())
      ensures boards == Rules.Active(Model())
    {
      if lastMove.None? {
        boards := Rules.OneToNine;
      } else {
        boards := [lastMove.value % 10];
        var (x, y) := GridXY(boards[0]);
        if outer.grid[y][x] != ' ' {
          boards := Rules.OneToNine;
        }
      }
    }

    /** `codes` followed by the code of each cell of `ms` in sub-grid `b`. */
    static method AppendCodes(codes: seq<int>, b: int, ms: seq<int>) returns (result: seq<int>)
      requires 1 <= b <= 9 && forall i | 0 <= i < |ms| :: 1 <= ms[i] <= 9
      ensures result == codes + Rules.Tag(b, ms)
    {
      result := codes;
      for j := 0 to |ms|
        invariant result == codes + Rules.Tag(b, ms[..j])
      {
        Rules.TagSnoc(b, ms, j);
        result := result + [b * 10 + ms[j]];
      }
      assert ms[..|ms|] == ms;
    }

    /** The legal move codes, sub-grid ascending then cell ascending. */
    method Moves() returns (result: seq<int>)
      requires Shaped() && Rules.WellFormed(Model())
      ensures result == Rules.LegalMoves(Model())
    {
      var boards := ActiveBoards();
      ghost var g := Model();
      result := [];
      for i := 0 to |boards|
        invariant result == Rules.Codes(g, boards[..i])
      {
        result := AppendSubCodes(result, boards[i]);
        Rules.CodesSnoc(g, boards, i);
      }
      assert boards[..|boards|] == boards;
    }

    /** `codes` followed by the codes of the open cells of sub-grid `b`. */
    method AppendSubCodes(codes: seq<int>, b: int) returns (result: seq<int>)
      requires Shaped() && Rules.WellFormed(Model()) && 1 <= b <= 9
      ensures result == codes + Rules.Tag(b, Grid.OpenCells(Rules.Sub(Model(), b)))
    {
      var (x, y) := GridXY(b);
      SubAt(b);
      var ms := board[y][x].Moves();
      result := AppendCodes(codes, b, ms);
    }

    /** Take move `m` for `player`: a code that is not legal is refused with
        no change; otherwise the mark is attempted in its sub-grid, recorded as
        the last move if placed, and a sub-grid won by 'X' or 'O' is marked in
        the meta-grid. */
    method Move(m: int, player: char) returns (result: bool)
      requires Valid()
      modifies this, Repr
      ensures Valid()
      ensures (result, Model()) == Rules.Apply(old(Model()), m, player)
    {
      var ms := Moves();
      if m !in ms {
        return false;
      }
      result := Play(m, player);
    }

    /** `Move` for a legal code. */
    method Play(m: int, player: char) returns (result: bool)
      requires Valid() && m in Rules.LegalMoves(Model())
      modifies this, Repr
      ensures Valid()
      ensures (result, Model()) == Rules.Apply(old(Model()), m, player)
    {
      ghost var before := Model();
      Rules.LegalMovesMember(before, m);
      var b := m / 10;
      result := Mark(b, m % 10, player);
      if result {
        lastMove := Rules.Some(m);
      }
      Capture(b);
      assert (result, Model()) == Rules.Apply(before, m, player);
      Rules.ApplyPreservesValid(before, m, player);
    }

    /** Attempt `player`'s mark in cell `square` of sub-grid `b`; nothing
        else changes. */
    method Mark(b: int, square: int, player: char) returns (ok: bool)
      requires Shaped() && Rules.WellFormed(Model()) && 1 <= b <= 9
      modifies board[GridXY(b).1][GridXY(b).0]
      ensures Shaped() && Rules.WellFormed(Model())
      ensures ok == Grid.Move(Rules.Sub(old(Model()), b), square, player).0
      ensures Model() == old(Model()).(subs := Rules.SetSub(old(Model()).subs, b,
                                                 Grid.Move(Rules.Sub(old(Model()), b), square, player).1))
    {
      ModelCells();
      ghost var before := Model().subs;
      var (x, y) := GridXY(b);
      SubAt(b);
      var sub := board[y][x];
      ok := sub.Move(square, player);
      ModelCells();
      assert forall y', x' | 0 <= y' < 3 && 0 <= x' < 3 && (y' != y || x' != x) ::
        board[y'][x'] != sub;
      Replaced(before, Model().subs, x, y, sub.grid);
    }

    /** The model's sub-grids are the grid objects' cells. */
    lemma ModelCells()
      requires Shaped()
      ensures |Model().subs| == 3 && forall y | 0 <= y < 3 :: |Model().subs[y]| == 3
      ensures forall y, x | 0 <= y < 3 && 0 <= x < 3 :: Model().subs[y][x] == board[y][x].grid
    {
    }

    /** `after` is `before` with entry (x, y) replaced by `s` when they agree
        everywhere else. */
    static lemma Replaced(before: seq<seq<Grid.Cells>>, after: seq<seq<Grid.Cells>>, x: int, y: int, s: Grid.Cells)
      requires |before| == 3 && (forall y' | 0 <= y' < 3 :: |before[y']| == 3)
      requires |after| == 3 && (forall y' | 0 <= y' < 3 :: |after[y']| == 3)
      requires 0 <= x < 3 && 0 <= y < 3 && after[y][x] == s
      requires forall y', x' | 0 <= y' < 3 && 0 <= x' < 3 && (y' != y || x' != x) ::
                 after[y'][x'] == before[y'][x']
      ensures after == before[y := before[y][x := s]]
    {
      var r := before[y := before[y][x := s]];
      forall y' | 0 <= y' < 3
        ensures after[y'] == r[y']
      {
      }
    }

    /** Mark sub-grid `b` in the meta-grid when 'X' or 'O' has won it;
        nothing else changes. */
    method Capture(b: int)
      requires Shaped() && Rules.WellFormed(Model()) && 1 <= b <= 9
      modifies outer
      ensures Shaped() && Rules.WellFormed(Model())
      ensures var w := Grid.Winner(Rules.Sub(old(Model()), b));
              Model() == old(Model()).(outer := if Grid.IsMark(w) then Grid.Move(old(Model()).outer, b, w).1
                                                else old(Model()).outer)
    {
      var (x, y) := GridXY(b);
      SubAt(b);
      var w := board[y][x].Winner();
      if w == 'X' || w == 'O' {
        var _ := outer.Move(b, w);
      }
      assert forall y', x' | 0 <= y' < 3 && 0 <= x' < 3 :: board[y'][x'].grid == old(board[y'][x'].grid);
    }

    /** 'X', 'O', 'S' or 'N': the meta-grid's winner. */
    function Winner(): (w: char)
      reads this, Repr
      requires Valid()
      ensures w == outer.Winner() && w == Rules.Winner(Model())
    {
      outer.Winner()
    }
  }
}
