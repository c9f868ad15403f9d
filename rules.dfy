/**
 * Rules of Ultimate Tic-Tac-Toe, as values.
 *
 * A game is nine sub-grids `subs[y][x]`, the meta-grid `outer` recording which
 * player captured which sub-grid, and the last move taken. A move is the code
 * `board * 10 + cell`: the tens digit names the sub-grid and the units digit
 * the cell inside it, both numbered 1..9 in reading order.
 */
module Rules {
  import opened Coords
  import Grid

  datatype Option<T> = None | Some(value: T)

  datatype Game = Game(subs: seq<seq<Grid.Cells>>, outer: Grid.Cells, last: Option<int>)

  /** Both digits of the code lie in 1..9. */
  predicate IsCode(c: int) {
    1 <= c / 10 <= 9 && 1 <= c % 10 <= 9
  }

  predicate WellFormed(g: Game) {
    |g.subs| == 3 &&
    (forall y | 0 <= y < 3 :: |g.subs[y]| == 3 &&
       forall x | 0 <= x < 3 :: Grid.WellFormed(g.subs[y][x])) &&
    Grid.WellFormed(g.outer) &&
    (g.last.Some? ==> IsCode(g.last.value))
  }

  /** Sub-grid number `b`. */
  function Sub(g: Game, b: int): (s: Grid.Cells)
    requires WellFormed(g) && 1 <= b <= 9
    ensures Grid.WellFormed(s)
  {
    var (x, y) := GridXY(b); g.subs[y][x]
  }

  /** The sub-grids with sub-grid number `b` replaced by `s`. */
  function SetSub(subs: seq<seq<Grid.Cells>>, b: int, s: Grid.Cells): seq<seq<Grid.Cells>>
    requires |subs| == 3 && (forall y | 0 <= y < 3 :: |subs[y]| == 3) && 1 <= b <= 9
  {
    var (x, y) := GridXY(b); subs[y := subs[y][x := s]]
  }

  /** The meta-grid agrees with the sub-grids: a sub-grid won by either player
      has its meta-grid cell taken, and a taken meta-grid cell names a player
      who filled a line of that sub-grid. */
  predicate Consistent(g: Game)
    requires WellFormed(g)
  {
    forall b | 1 <= b <= 9 ::
      (Grid.IsMark(Grid.Winner(Sub(g, b))) ==> Grid.At(g.outer, b) != ' ') &&
      (Grid.At(g.outer, b) != ' ' ==> Grid.HasLine(Sub(g, b), Grid.At(g.outer, b)))
  }

  predicate Valid(g: Game) {
    WellFormed(g) && Consistent(g)
  }

  /** The position before the first move. */
  function Initial(): (g: Game)
    ensures Valid(g)
  {
    var e := Grid.EmptyGrid();
    Grid.EmptyGridWinner();
    Game([[e, e, e], [e, e, e], [e, e, e]], e, None)
  }

  /** The numbers 1..9 in ascending order: every sub-grid number, and every
      cell number of a grid. */
  const OneToNine: seq<int> := [1, 2, 3, 4, 5, 6, 7, 8, 9]

  // ---------------------------------------------------------------------------
  // Legal moves (the source's `UTTBoard.moves`)
  // ---------------------------------------------------------------------------

  /** The sub-grids a move may go to: every one before the first move;
      afterwards the one named by the last move's cell digit, or every one when
      that sub-grid's meta-grid cell is taken. */
  function Active(g: Game): (bs: seq<int>)
    requires WellFormed(g)
    ensures Grid.Increasing(bs)
    ensures forall i | 0 <= i < |bs| :: 1 <= bs[i] <= 9
  {
    if g.last.None? then OneToNine
    else
      var b := g.last.value % 10;
      if Grid.At(g.outer, b) != ' ' then OneToNine else [b]
  }

  /** The codes `b * 10 + m` for the cells `m` in `ms`, in the order of `ms`. */
  function Tag(b: int, ms: seq<int>): (cs: seq<int>)
    requires 1 <= b <= 9 && forall i | 0 <= i < |ms| :: 1 <= ms[i] <= 9
    ensures |cs| == |ms|
    ensures forall i | 0 <= i < |cs| :: cs[i] / 10 == b && cs[i] % 10 == ms[i]
  {
    if ms == [] then [] else Tag(b, ms[..|ms| - 1]) + [b * 10 + ms[|ms| - 1]]
  }

  /** The codes of every open cell of every sub-grid in `bs`, sub-grid by
      sub-grid. */
  function Codes(g: Game, bs: seq<int>): (cs: seq<int>)
    requires WellFormed(g) && forall i | 0 <= i < |bs| :: 1 <= bs[i] <= 9
    ensures forall c | c in cs :: IsCode(c) && c / 10 in bs
  {
    if bs == [] then []
    else
      var b := bs[|bs| - 1];
      Codes(g, bs[..|bs| - 1]) + Tag(b, Grid.OpenCells(Sub(g, b)))
  }

  function LegalMoves(g: Game): (cs: seq<int>)
    requires WellFormed(g)
    ensures forall c | c in cs :: IsCode(c)
  {
    Codes(g, Active(g))
  }

  /** Extending the cells by one extends the codes by one. */
  lemma TagSnoc(b: int, ms: seq<int>, j: int)
    requires 1 <= b <= 9 && forall i | 0 <= i < |ms| :: 1 <= ms[i] <= 9
    requires 0 <= j < |ms|
    ensures Tag(b, ms[..j + 1]) == Tag(b, ms[..j]) + [b * 10 + ms[j]]
  {
    assert ms[..j + 1][..j] == ms[..j];
  }

  /** Extending the sub-grids by one extends the codes by that sub-grid's. */
  lemma CodesSnoc(g: Game, bs: seq<int>, i: int)
    requires WellFormed(g) && forall k | 0 <= k < |bs| :: 1 <= bs[k] <= 9
    requires 0 <= i < |bs|
    ensures Codes(g, bs[..i + 1]) == Codes(g, bs[..i]) + Tag(bs[i], Grid.OpenCells(Sub(g, bs[i])))
  {
    assert bs[..i + 1][..i] == bs[..i];
  }

  lemma TagMember(b: int, ms: seq<int>, c: int)
    requires 1 <= b <= 9 && forall i | 0 <= i < |ms| :: 1 <= ms[i] <= 9
    ensures c in Tag(b, ms) <==> c / 10 == b && c % 10 in ms
  {
    var cs := Tag(b, ms);
    if c / 10 == b && c % 10 in ms {
      var i :| 0 <= i < |ms| && ms[i] == c % 10;
      assert cs[i] == c;
    }
  }

  lemma {:induction false} CodesMember(g: Game, bs: seq<int>, c: int)
    requires WellFormed(g) && forall i | 0 <= i < |bs| :: 1 <= bs[i] <= 9
    ensures c in Codes(g, bs) <==>
              1 <= c / 10 <= 9 && c / 10 in bs && c % 10 in Grid.OpenCells(Sub(g, c / 10))
  {
    if bs != [] {
      var b := bs[|bs| - 1];
      var front := bs[..|bs| - 1];
      CodesMember(g, front, c);
      TagMember(b, Grid.OpenCells(Sub(g, b)), c);
      assert bs == front + [b];
    }
  }

  /** A code is legal exactly when its sub-grid is active and its cell is open
      in that sub-grid. */
  lemma LegalMovesMember(g: Game, c: int)
    requires WellFormed(g)
    ensures c in LegalMoves(g) <==>
              1 <= c / 10 <= 9 && c / 10 in Active(g) && c % 10 in Grid.OpenCells(Sub(g, c / 10))
  {
    CodesMember(g, Active(g), c);
  }

  lemma {:induction false} CodesIncreasing(g: Game, bs: seq<int>)
    requires WellFormed(g) && forall i | 0 <= i < |bs| :: 1 <= bs[i] <= 9
    requires Grid.Increasing(bs)
    ensures Grid.Increasing(Codes(g, bs))
  {
    if bs != [] {
      var b := bs[|bs| - 1];
      var front := bs[..|bs| - 1];
      CodesIncreasing(g, front);
      var head := Codes(g, front);
      var tail := Tag(b, Grid.OpenCells(Sub(g, b)));
      forall i | 0 <= i < |head|
        ensures head[i] < b * 10
      {
        assert head[i] in head;
        var j :| 0 <= j < |front| && front[j] == head[i] / 10;
      }
      forall i, j | 0 <= i < j < |head + tail|
        ensures (head + tail)[i] < (head + tail)[j]
      {
        if j < |head| {
        } else if i >= |head| {
          assert tail[i - |head|] % 10 < tail[j - |head|] % 10;
        } else {
          assert (head + tail)[i] == head[i];
        }
      }
    }
  }

  /** Legal moves come sub-grid by sub-grid ascending, and cell ascending
      within a sub-grid: as codes, strictly ascending. */
  lemma LegalMovesIncreasing(g: Game)
    requires WellFormed(g)
    ensures Grid.Increasing(LegalMoves(g))
  {
    CodesIncreasing(g, Active(g));
  }

  /** Ascending codes are ordered by sub-grid first, then by cell. */
  lemma IncreasingCodesOrder(cs: seq<int>)
    requires Grid.Increasing(cs) && forall c | c in cs :: IsCode(c)
    ensures forall i, j | 0 <= i < j < |cs| ::
              cs[i] / 10 < cs[j] / 10 || (cs[i] / 10 == cs[j] / 10 && cs[i] % 10 < cs[j] % 10)
  {
  }

  /** Before the first move, or when the named sub-grid has been captured,
      every open cell of every sub-grid is a legal move, captured sub-grids
      included. */
  lemma FreeMove(g: Game, c: int)
    requires WellFormed(g)
    requires g.last.None? || Grid.At(g.outer, g.last.value % 10) != ' '
    ensures c in LegalMoves(g) <==> IsCode(c) && c % 10 in Grid.OpenCells(Sub(g, c / 10))
  {
    LegalMovesMember(g, c);
  }

  /** The digits of the code made from sub-grid `b` and cell `m`. */
  lemma CodeDigits(b: int, m: int)
    requires 1 <= b <= 9 && 1 <= m <= 9
    ensures (b * 10 + m) / 10 == b && (b * 10 + m) % 10 == m
  {
  }

  /** When the sub-grid named by the last move's cell digit has an open
      meta-grid cell, every legal move lies in that sub-grid. */
  lemma SentToBoard(g: Game)
    requires WellFormed(g) && g.last.Some? && Grid.At(g.outer, g.last.value % 10) == ' '
    ensures forall c | c in LegalMoves(g) :: c / 10 == g.last.value % 10
  {
    var b := g.last.value % 10;
    assert Active(g) == [b];
    forall c | c in LegalMoves(g)
      ensures c / 10 == b
    {
      LegalMovesMember(g, c);
    }
  }

  /** ... and every open cell of that sub-grid is a legal move. */
  lemma SentToBoardOpen(g: Game)
    requires WellFormed(g) && g.last.Some? && Grid.At(g.outer, g.last.value % 10) == ' '
    ensures forall m | m in Grid.OpenCells(Sub(g, g.last.value % 10)) ::
              g.last.value % 10 * 10 + m in LegalMoves(g)
  {
    var b := g.last.value % 10;
    assert Active(g) == [b];
    forall m | m in Grid.OpenCells(Sub(g, b))
      ensures b * 10 + m in LegalMoves(g)
    {
      var c := b * 10 + m;
      CodeDigits(b, m);
      assert c / 10 in Active(g);
      assert c % 10 in Grid.OpenCells(Sub(g, c / 10));
      LegalMovesMember(g, c);
    }
  }

  /** When the sub-grid named by the last move ended in a tie, its meta-grid
      cell is still open, so no sub-grid is freed and there is no legal move. */
  lemma TiedBoardBlocks(g: Game)
    requires Valid(g) && g.last.Some? && Grid.Winner(Sub(g, g.last.value % 10)) == 'S'
    ensures LegalMoves(g) == []
  {
    var b := g.last.value % 10;
    TieNeverMarks(g, b);
    assert Active(g) == [b];
    Grid.WinnerOpenCells(Sub(g, b));
    if LegalMoves(g) != [] {
      var c := LegalMoves(g)[0];
      LegalMovesMember(g, c);
    }
  }

  /** When the sub-grid named by the last move ended in a tie and no line of
      the meta-grid is filled, the game is stuck: there is no legal move, yet
      the winner is still `'N'` (in progress), because the tied sub-grid's
      meta-grid cell stays open. */
  lemma TiedBoardStalls(g: Game)
    requires Valid(g) && g.last.Some? && Grid.Winner(Sub(g, g.last.value % 10)) == 'S'
    requires forall k | 0 <= k < 8 :: !Grid.HasWin(Grid.Lines(g.outer)[k])
    ensures LegalMoves(g) == [] && Winner(g) == 'N'
  {
    var b := g.last.value % 10;
    TiedBoardBlocks(g);
    TieNeverMarks(g, b);
    Grid.HasBlankAt(g.outer);
    Grid.WinnerScan(g.outer);
  }

  lemma InOneToNine(b: int)
    requires 1 <= b <= 9
    ensures b in OneToNine
  {
    assert OneToNine[b - 1] == b;
  }

  /** Before the first move, with every cell of every sub-grid open, the legal
      moves are the 81 codes with both digits in 1..9. */
  lemma FreshLegalMoves(g: Game)
    requires WellFormed(g) && g.last.None?
    requires forall b | 1 <= b <= 9 :: Grid.OpenCells(Sub(g, b)) == OneToNine
    ensures forall c :: c in LegalMoves(g) <==> IsCode(c)
    ensures |LegalMoves(g)| == 81
  {
    assert Active(g) == OneToNine;
    forall c
      ensures c in LegalMoves(g) <==> IsCode(c)
    {
      LegalMovesMember(g, c);
      if IsCode(c) {
        InOneToNine(c / 10);
        InOneToNine(c % 10);
      }
    }
    CodesOfFull(g, OneToNine);
  }

  /** A position whose sub-grids are all new has every cell open. */
  lemma BlankSubsOpen(g: Game)
    requires WellFormed(g)
    requires forall y, x | 0 <= y < 3 && 0 <= x < 3 :: g.subs[y][x] == Grid.EmptyGrid()
    ensures forall b | 1 <= b <= 9 :: Grid.OpenCells(Sub(g, b)) == OneToNine
  {
    Grid.EmptyGridOpenCells();
  }

  /** In the first position every sub-grid is new. */
  lemma InitialSubs()
    ensures forall y, x | 0 <= y < 3 && 0 <= x < 3 :: Initial().subs[y][x] == Grid.EmptyGrid()
  {
  }

  /** The first position has the 81 codes with both digits in 1..9. */
  lemma InitialLegalMoves()
    ensures forall c :: c in LegalMoves(Initial()) <==> IsCode(c)
    ensures |LegalMoves(Initial())| == 81
  {
    InitialSubs();
    BlankSubsOpen(Initial());
    FreshLegalMoves(Initial());
  }

  lemma {:induction false} CodesOfFull(g: Game, bs: seq<int>)
    requires WellFormed(g) && forall i | 0 <= i < |bs| :: 1 <= bs[i] <= 9
    requires forall b | 1 <= b <= 9 :: |Grid.OpenCells(Sub(g, b))| == 9
    ensures |Codes(g, bs)| == 9 * |bs|
  {
    if bs != [] {
      CodesOfFull(g, bs[..|bs| - 1]);
    }
  }

  // ---------------------------------------------------------------------------
  // Taking a move (the source's `UTTBoard.move`)
  // ---------------------------------------------------------------------------

  /** Attempt the move with code `m` for player `p`; the flag says whether it
      was taken, and the game is the position afterwards. An illegal code is
      rejected outright; otherwise the mark goes to cell `m % 10` of sub-grid
      `m / 10`, the last move is recorded if the mark was placed, and if that
      sub-grid now has a winner 'X' or 'O' the meta-grid cell is written for
      it, unless already taken. A tie writes nothing. */
  function Apply(g: Game, m: int, p: char): (r: (bool, Game))
    requires WellFormed(g)
    ensures WellFormed(r.1)
    ensures m !in LegalMoves(g) ==> r == (false, g)
  {
    if m !in LegalMoves(g) then (false, g)
    else
      assert IsCode(m);
      var b := m / 10;
      var (ok, s) := Grid.Move(Sub(g, b), m % 10, p);
      var w := Grid.Winner(s);
      var outer := if Grid.IsMark(w) then Grid.Move(g.outer, b, w).1 else g.outer;
      (ok, Game(SetSub(g.subs, b, s), outer, if ok then Some(m) else g.last))
  }

  lemma SubOfSetSub(subs: seq<seq<Grid.Cells>>, b: int, s: Grid.Cells, c: int)
    requires |subs| == 3 && (forall y | 0 <= y < 3 :: |subs[y]| == 3) && 1 <= b <= 9 && 1 <= c <= 9
    ensures var (x, y) := GridXY(c);
            SetSub(subs, b, s)[y][x] == if c == b then s else subs[y][x]
  {
    if GridXY(c) == GridXY(b) {
      GridXYInjective(c, b);
    }
  }

  /** A move is taken exactly when it is legal and by a player 'X' or 'O'.
      Then it is the last move, it sets one open cell of its sub-grid to the
      player, and no other sub-grid changes. */
  lemma ApplyTaken(g: Game, m: int, p: char)
    requires WellFormed(g)
    ensures Apply(g, m, p).0 <==> m in LegalMoves(g) && Grid.IsMark(p)
    ensures Apply(g, m, p).0 ==>
              var h := Apply(g, m, p).1;
              h.last == Some(m) &&
              Grid.At(Sub(g, m / 10), m % 10) == ' ' &&
              Sub(h, m / 10) == Grid.Place(Sub(g, m / 10), m % 10, p) &&
              forall b | 1 <= b <= 9 && b != m / 10 :: Sub(h, b) == Sub(g, b)
  {
    if m in LegalMoves(g) {
      LegalMovesMember(g, m);
      var h := Apply(g, m, p).1;
      forall b | 1 <= b <= 9
        ensures Sub(h, b) == if b == m / 10 then Grid.Move(Sub(g, m / 10), m % 10, p).1 else Sub(g, b)
      {
        SubOfSetSub(g.subs, m / 10, Grid.Move(Sub(g, m / 10), m % 10, p).1, b);
      }
    }
  }

  /** The meta-grid is written at most at the move's own sub-grid, only with
      that sub-grid's winner 'X' or 'O', and a taken meta-grid cell is never
      overwritten. */
  lemma ApplyOuter(g: Game, m: int, p: char)
    requires WellFormed(g)
    ensures var h := Apply(g, m, p).1;
            forall b | 1 <= b <= 9 :: Grid.At(h.outer, b) != Grid.At(g.outer, b) ==>
              Grid.At(g.outer, b) == ' ' && b == m / 10 &&
              Grid.IsMark(Grid.At(h.outer, b)) && Grid.At(h.outer, b) == Grid.Winner(Sub(h, b))
  {
    if m in LegalMoves(g) {
      ApplyTaken(g, m, p);
      var h := Apply(g, m, p).1;
      LegalMovesMember(g, m);
      SubOfSetSub(g.subs, m / 10, Grid.Move(Sub(g, m / 10), m % 10, p).1, m / 10);
    }
  }

  /** A sub-grid ending in a tie never marks the meta-grid. */
  lemma TieNeverMarks(g: Game, b: int)
    requires Valid(g) && 1 <= b <= 9 && Grid.Winner(Sub(g, b)) == 'S'
    ensures Grid.At(g.outer, b) == ' '
  {
    if Grid.At(g.outer, b) != ' ' {
      Grid.WinnerIsMarkIffLine(Sub(g, b));
    }
  }

  /** Taking a move keeps the meta-grid consistent with the sub-grids. */
  lemma ApplyPreservesValid(g: Game, m: int, p: char)
    requires Valid(g)
    ensures Valid(Apply(g, m, p).1)
  {
    if m in LegalMoves(g) {
      var h := Apply(g, m, p).1;
      var a := m / 10;
      LegalMovesMember(g, m);
      ApplyTaken(g, m, p);
      ApplyOuter(g, m, p);
      forall b | 1 <= b <= 9
        ensures (Grid.IsMark(Grid.Winner(Sub(h, b))) ==> Grid.At(h.outer, b) != ' ') &&
                (Grid.At(h.outer, b) != ' ' ==> Grid.HasLine(Sub(h, b), Grid.At(h.outer, b)))
      {
        var s0 := Sub(g, b);
        var s1 := Sub(h, b);
        SubOfSetSub(g.subs, a, Grid.Move(Sub(g, a), m % 10, p).1, b);
        if b == a {
          Grid.MoveIsWriteOnce(s0, m % 10, p);
          Grid.WinnerIsMarkIffLine(s0);
          Grid.WinnerIsMarkIffLine(s1);
          if Grid.At(g.outer, b) != ' ' {
            Grid.LineIsSticky(s0, s1, Grid.At(g.outer, b));
          }
        }
      }
    }
  }

  /** A move that is refused changes nothing, including the meta-grid. */
  lemma RefusedMoveChangesNothing(g: Game, m: int, p: char)
    requires Valid(g) && !Apply(g, m, p).0
    ensures Apply(g, m, p).1 == g
  {
    if m in LegalMoves(g) {
      LegalMovesMember(g, m);
      var a := m / 10;
      var s := Sub(g, a);
      assert Grid.Move(s, m % 10, p).1 == s;
      if Grid.IsMark(Grid.Winner(s)) {
        assert Grid.At(g.outer, a) != ' ';
      }
      var (x, y) := GridXY(a);
      assert g.subs[y][x := s] == g.subs[y];
    }
  }

  /** Taking the same move twice: the second attempt is refused, by either
      player. */
  lemma SameMoveTwice(g: Game, m: int, p: char, q: char)
    requires WellFormed(g) && Apply(g, m, p).0
    ensures Apply(Apply(g, m, p).1, m, q) == (false, Apply(g, m, p).1)
  {
    var h := Apply(g, m, p).1;
    ApplyTaken(g, m, p);
    LegalMovesMember(h, m);
    assert Grid.At(Sub(h, m / 10), m % 10) == p;
  }

  // ---------------------------------------------------------------------------
  // Winner of the game (the source's `UTTBoard.winner`)
  // ---------------------------------------------------------------------------

  /** The game's winner is the meta-grid's winner. */
  function Winner(g: Game): (w: char)
    requires WellFormed(g)
    ensures w == 'X' || w == 'O' || w == 'S' || w == 'N'
  {
    Grid.Winner(g.outer)
  }

  /** Capturing the top row of sub-grids wins the game, whatever is on the
      other six. */
  lemma TopRowCaptureWins(g: Game, p: char)
    requires WellFormed(g) && Grid.IsMark(p) && g.outer[0] == [p, p, p]
    ensures Winner(g) == p
  {
    Grid.TopRowWins(g.outer, p);
  }
}
