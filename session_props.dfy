/**
 * What the session transitions promise: click gating, single reveals, the
 * loss display, the chord, the win test, the flag cap and the invariants
 * every transition keeps.
 */
module SessionProperties {
  import opened Wrappers
  import opened Squares
  import opened Grids
  import opened Generation
  import opened FloodFill
  import opened Session

  /** h differs from g only in squares that became revealed, none of them a mine. */
  ghost predicate Uncovers(g: Grid, h: Grid) {
    SameShape(g, h) &&
    forall r, c :: InBounds(g, r, c) ==>
      h[r][c].number == g[r][c].number && h[r][c].isFlagged == g[r][c].isFlagged &&
      (g[r][c].isRevealed ==> h[r][c].isRevealed) &&
      (h[r][c].isRevealed && !g[r][c].isRevealed ==> !g[r][c].IsBomb())
  }

  /** The settings a click never touches. */
  predicate SameSettings(st: GameState, r: GameState) {
    r.numRows == st.numRows && r.numCols == st.numCols && r.numBombs == st.numBombs &&
    r.numFlags == st.numFlags && r.safeStart == st.safeStart
  }

  predicate Lost(st: GameState) {
    st.gameOver && !st.wonGame
  }

  /** The game is over, and won, exactly when the revealed squares number rows * cols - numBombs. */
  ghost predicate WinTested(st: GameState, r: GameState) {
    r.gameOver == r.wonGame &&
    (r.gameOver <==> Count(r.grid, Revealed) == st.numRows * st.numCols - st.numBombs)
  }

  lemma RevealsOnlyUncovers(g: Grid, h: Grid)
    requires RevealsOnly(g, h)
    ensures Uncovers(g, h)
  {
  }

  lemma UncoversTrans(g: Grid, h: Grid, u: Grid)
    requires Uncovers(g, h) && Uncovers(h, u)
    ensures Uncovers(g, u)
  {
  }

  lemma UncoversKeeps(g: Grid, h: Grid, rows: int, cols: int)
    requires Uncovers(g, h) && IsGrid(g, rows, cols)
    ensures IsGrid(h, rows, cols)
    ensures ValidNumbers(g) ==> ValidNumbers(h)
    ensures NoRevealedMine(g) ==> NoRevealedMine(h)
    ensures Consistent(g) ==> Consistent(h)
    ensures Count(h, Flagged) == Count(g, Flagged)
    ensures Count(h, Mine) == Count(g, Mine)
  {
    forall r, c | InBounds(h, r, c) && !h[r][c].IsBomb() && Consistent(g)
      ensures h[r][c].number == NeighborMines(h, r, c)
    {
      SameMinesAmong(g, h, r, c, 9);
    }
    CountSame(g, h, Flagged);
    CountSame(g, h, Mine);
  }

  lemma RevealsOnlyNoFlaggedRevealed(g: Grid, h: Grid)
    requires RevealsOnly(g, h) && NoFlaggedRevealed(g)
    ensures NoFlaggedRevealed(h)
  {
  }

  /** The loss display reveals every non-mine, flagged or not, and leaves every mine as it was. */
  lemma RevealSafeSpec(g: Grid)
    ensures Uncovers(g, RevealSafe(g))
    ensures forall r, c :: InBounds(g, r, c) ==>
              (g[r][c].IsBomb() ==> RevealSafe(g)[r][c] == g[r][c]) &&
              (!g[r][c].IsBomb() ==> RevealSafe(g)[r][c].isRevealed)
  {
  }

  // ---------------------------------------------------------------------------
  // The chord.

  /** Neighbourhood position m of (i, j) is on the field and unflagged: the chord clicks it. */
  predicate Target(g: Grid, i: int, j: int, m: int)
    requires 0 <= m < 9
  {
    InBounds(g, NeighborRow(i, m), NeighborCol(j, m)) && !g[NeighborRow(i, m)][NeighborCol(j, m)].isFlagged
  }

  predicate MineTarget(g: Grid, i: int, j: int, m: int)
    requires 0 <= m < 9
  {
    Target(g, i, j, m) && g[NeighborRow(i, m)][NeighborCol(j, m)].IsBomb()
  }

  lemma TargetsKept(g: Grid, h: Grid, i: int, j: int)
    requires RevealsOnly(g, h)
    ensures forall m :: 0 <= m < 9 ==>
              (Target(h, i, j, m) <==> Target(g, i, j, m)) && (MineTarget(h, i, j, m) <==> MineTarget(g, i, j, m))
  {
  }

  /** The chord reveals unflagged non-mines only. */
  lemma {:induction false} ChordRevealsOnly(g: Grid, i: int, j: int, k: nat)
    requires k <= 9
    decreases 9 - k
    ensures RevealsOnly(g, ChordFrom(g, i, j, k).0)
  {
    if k < 9 {
      var r, c := NeighborRow(i, k), NeighborCol(j, k);
      if InBounds(g, r, c) && !g[r][c].isFlagged && !g[r][c].IsBomb() {
        var h := Update(g, r, c, g[r][c].(isRevealed := true));
        assert RevealsOnly(g, h);
        ChordRevealsOnly(h, i, j, k + 1);
        RevealsOnlyTrans(g, h, ChordFrom(h, i, j, k + 1).0);
      } else if !(InBounds(g, r, c) && !g[r][c].isFlagged) {
        ChordRevealsOnly(g, i, j, k + 1);
      }
    }
  }

  /** The chord hits a mine exactly when an unflagged in-bounds neighbour from position k on is one. */
  lemma {:induction false} ChordHit(g: Grid, i: int, j: int, k: nat)
    requires k <= 9
    decreases 9 - k
    ensures ChordFrom(g, i, j, k).1 <==> exists m :: k <= m < 9 && MineTarget(g, i, j, m)
  {
    if k < 9 {
      var r, c := NeighborRow(i, k), NeighborCol(j, k);
      if InBounds(g, r, c) && !g[r][c].isFlagged {
        if g[r][c].IsBomb() {
          assert MineTarget(g, i, j, k);
        } else {
          var h := Update(g, r, c, g[r][c].(isRevealed := true));
          assert RevealsOnly(g, h);
          TargetsKept(g, h, i, j);
          ChordHit(h, i, j, k + 1);
          assert !MineTarget(g, i, j, k);
        }
      } else {
        assert !Target(g, i, j, k);
        ChordHit(g, i, j, k + 1);
      }
    }
  }

  /** Without a hit, every unflagged in-bounds neighbour from position k on ends up revealed. */
  lemma {:induction false} ChordCovers(g: Grid, i: int, j: int, k: nat)
    requires k <= 9
    decreases 9 - k
    ensures !ChordFrom(g, i, j, k).1 ==>
              forall m :: k <= m < 9 && Target(g, i, j, m) ==>
                ChordFrom(g, i, j, k).0[NeighborRow(i, m)][NeighborCol(j, m)].isRevealed
  {
    if k < 9 {
      var r, c := NeighborRow(i, k), NeighborCol(j, k);
      if InBounds(g, r, c) && !g[r][c].isFlagged {
        if !g[r][c].IsBomb() {
          var h := Update(g, r, c, g[r][c].(isRevealed := true));
          assert RevealsOnly(g, h);
          TargetsKept(g, h, i, j);
          ChordCovers(h, i, j, k + 1);
          ChordRevealsOnly(h, i, j, k + 1);
          assert h[r][c].isRevealed;
        }
      } else {
        ChordCovers(g, i, j, k + 1);
      }
    }
  }

  /** The chord, in one statement. */
  lemma ChordSpec(g: Grid, i: int, j: int)
    ensures RevealsOnly(g, ChordFrom(g, i, j, 0).0)
    ensures ChordFrom(g, i, j, 0).1 <==> exists m :: 0 <= m < 9 && MineTarget(g, i, j, m)
    ensures !ChordFrom(g, i, j, 0).1 ==>
              forall m :: 0 <= m < 9 && Target(g, i, j, m) ==>
                ChordFrom(g, i, j, 0).0[NeighborRow(i, m)][NeighborCol(j, m)].isRevealed
  {
    ChordRevealsOnly(g, i, j, 0);
    ChordHit(g, i, j, 0);
    ChordCovers(g, i, j, 0);
  }

  // ---------------------------------------------------------------------------
  // The square click.

  /** The win test decides the game from the revealed count and changes nothing else. */
  lemma WinCheckSpec(st: GameState)
    requires !st.gameOver && !st.wonGame
    ensures var r := WinCheck(st);
      r.grid == st.grid && SameSettings(st, r) && r.firstClick == st.firstClick && WinTested(st, r)
  {
  }

  /**
   * What follows the clicked square: it only uncovers non-mines, and either
   * loses or only reveals unflagged non-mines and then applies the win test.
   */
  lemma AfterRevealOutcome(st: GameState, i: int, j: int, revealedSquare: bool)
    requires InBounds(st.grid, i, j) && !st.gameOver && !st.wonGame
    ensures var r := AfterReveal(st, i, j, revealedSquare);
      SameSettings(st, r) && r.firstClick == st.firstClick && Uncovers(st.grid, r.grid) &&
      (Lost(r) || (RevealsOnly(st.grid, r.grid) && WinTested(st, r)))
  {
    var s := st.grid[i][j];
    var r := AfterReveal(st, i, j, revealedSquare);
    if s.number == 0 && s.isRevealed {
      FillSpec(st.grid);
      WinCheckSpec(st.(grid := Fill(st.grid)));
    } else if s.isRevealed && !revealedSquare {
      if s.number - FlaggedAmong(st.grid, i, j, 9) <= 0 {
        var res := ChordFrom(st.grid, i, j, 0);
        ChordSpec(st.grid, i, j);
        if res.1 {
          RevealSafeSpec(res.0);
          UncoversTrans(st.grid, res.0, r.grid);
        } else {
          FillSpec(res.0);
          RevealsOnlyTrans(st.grid, res.0, Fill(res.0));
          WinCheckSpec(st.(grid := Fill(res.0)));
        }
      } else {
        FillSpec(st.grid);
        WinCheckSpec(st.(grid := Fill(st.grid)));
      }
    } else {
      WinCheckSpec(st);
    }
  }

  /**
   * Every click: an ignored one changes nothing; an accepted one clears
   * firstClick, keeps the settings, only uncovers non-mines, and either loses
   * or only reveals unflagged non-mines and then applies the win test.
   */
  lemma ClickOutcome(st: GameState, i: int, j: int)
    requires WellFormed(st) && InBounds(st.grid, i, j)
    ensures var r := Click(st, i, j);
      (!Accepted(st, i, j) ==> r == st) &&
      (Accepted(st, i, j) ==>
        !r.firstClick && SameSettings(st, r) && Uncovers(st.grid, r.grid) &&
        (Lost(r) || (RevealsOnly(st.grid, r.grid) && WinTested(st, r))))
  {
    if Accepted(st, i, j) {
      var st1 := st.(firstClick := false);
      var s := st.grid[i][j];
      if !s.isFlagged && !s.isRevealed {
        if s.IsBomb() {
          RevealSafeSpec(st.grid);
        } else {
          var st2 := st1.(grid := Update(st.grid, i, j, s.(isRevealed := true)));
          assert RevealsOnly(st.grid, st2.grid);
          AfterRevealOutcome(st2, i, j, true);
          var r := AfterReveal(st2, i, j, true);
          RevealsOnlyUncovers(st.grid, st2.grid);
          UncoversTrans(st.grid, st2.grid, r.grid);
          if !Lost(r) {
            RevealsOnlyTrans(st.grid, st2.grid, r.grid);
          }
        }
      } else {
        AfterRevealOutcome(st1, i, j, false);
      }
    }
  }

  /** While the game is over, or the first click misses the "X", clicks are ignored. */
  lemma ClickGating(st: GameState, i: int, j: int)
    requires WellFormed(st) && InBounds(st.grid, i, j)
    ensures !st.gameOver && st.firstClick && st.HasX() ==> (Accepted(st, i, j) <==> st.safeStart == Some((i, j)))
    ensures st.gameOver ==> Click(st, i, j) == st
    ensures Accepted(st, i, j) ==> !Click(st, i, j).firstClick
  {
    ClickOutcome(st, i, j);
  }

  /** Clicking an unflagged, unrevealed mine loses and shows every non-mine; mines stay unrevealed. */
  lemma ClickLoss(st: GameState, i: int, j: int)
    requires WellFormed(st) && InBounds(st.grid, i, j) && Accepted(st, i, j)
    requires !st.grid[i][j].isFlagged && !st.grid[i][j].isRevealed && st.grid[i][j].IsBomb()
    ensures var r := Click(st, i, j);
      Lost(r) && SameShape(st.grid, r.grid) &&
      forall a, b :: InBounds(st.grid, a, b) ==>
        (st.grid[a][b].IsBomb() ==> !r.grid[a][b].isRevealed) &&
        (!st.grid[a][b].IsBomb() ==> r.grid[a][b].isRevealed)
  {
    RevealSafeSpec(st.grid);
  }

  /** Clicking an unflagged, unrevealed non-mine reveals it and cannot lose. */
  lemma ClickReveals(st: GameState, i: int, j: int)
    requires WellFormed(st) && InBounds(st.grid, i, j) && Accepted(st, i, j)
    requires !st.grid[i][j].isFlagged && !st.grid[i][j].isRevealed && !st.grid[i][j].IsBomb()
    ensures Click(st, i, j).grid[i][j].isRevealed
    ensures !Lost(Click(st, i, j))
  {
    var g1 := Update(st.grid, i, j, st.grid[i][j].(isRevealed := true));
    var st2 := st.(firstClick := false, grid := g1);
    AfterRevealOutcome(st2, i, j, true);
    if g1[i][j].number == 0 {
      FillSpec(g1);
      WinCheckSpec(st2.(grid := Fill(g1)));
    } else {
      WinCheckSpec(st2);
    }
  }

  /** Clicking a flagged, unrevealed square leaves the field as it was. */
  lemma ClickFlagged(st: GameState, i: int, j: int)
    requires WellFormed(st) && InBounds(st.grid, i, j) && Accepted(st, i, j)
    requires st.grid[i][j].isFlagged && !st.grid[i][j].isRevealed
    ensures Click(st, i, j).grid == st.grid
  {
    WinCheckSpec(st.(firstClick := false));
  }

  /**
   * Clicking again on a revealed non-zero square whose flagged neighbours
   * account for its number: an unflagged mine among its neighbours loses the
   * game; otherwise those neighbours all end up revealed and the win test applies.
   */
  lemma ClickChord(st: GameState, i: int, j: int)
    requires WellFormed(st) && InBounds(st.grid, i, j) && Accepted(st, i, j)
    requires st.grid[i][j].isRevealed && st.grid[i][j].number != 0
    requires st.grid[i][j].number - FlaggedAmong(st.grid, i, j, 9) <= 0
    ensures var r := Click(st, i, j);
      ((exists m :: 0 <= m < 9 && MineTarget(st.grid, i, j, m)) ==>
        Lost(r) && SameShape(st.grid, r.grid) &&
        forall a, b :: InBounds(st.grid, a, b) ==>
          (st.grid[a][b].IsBomb() ==> r.grid[a][b] == st.grid[a][b]) &&
          (!st.grid[a][b].IsBomb() ==> r.grid[a][b].isRevealed)) &&
      ((forall m :: 0 <= m < 9 ==> !MineTarget(st.grid, i, j, m)) ==>
        WinTested(st, r) &&
        forall m :: 0 <= m < 9 && Target(st.grid, i, j, m) ==>
          r.grid[NeighborRow(i, m)][NeighborCol(j, m)].isRevealed)
  {
    var st1 := st.(firstClick := false);
    var res := ChordFrom(st.grid, i, j, 0);
    ChordSpec(st.grid, i, j);
    if !res.1 {
      FillSpec(res.0);
      WinCheckSpec(st1.(grid := Fill(res.0)));
    } else {
      RevealSafeSpec(res.0);
      forall a, b | InBounds(st.grid, a, b) && st.grid[a][b].IsBomb() ensures res.0[a][b] == st.grid[a][b] {
        assert !st.grid[a][b].isRevealed;
      }
    }
  }

  /** After a click that does not lose, the game is over, and won, exactly on the win count. */
  lemma ClickWin(st: GameState, i: int, j: int)
    requires WellFormed(st) && InBounds(st.grid, i, j) && Accepted(st, i, j)
    ensures var r := Click(st, i, j);
      !Lost(r) ==> WinTested(st, r)
  {
    ClickOutcome(st, i, j);
  }

  /** With as many mines as numBombs, the win count means every non-mine is revealed. */
  lemma WinMeansAllSafeRevealed(g: Grid, rows: int, cols: int, bombs: int)
    requires IsGrid(g, rows, cols) && NoRevealedMine(g) && Count(g, Mine) == bombs
    ensures Count(g, Revealed) == rows * cols - bombs <==>
              forall r, c :: InBounds(g, r, c) && !g[r][c].IsBomb() ==> g[r][c].isRevealed
  {
    CountSplit(g, rows, cols);
    CountNone(g, HiddenSafe);
  }

  /**
   * Every click keeps the session well formed, keeps the field consistent and
   * the flag count right, and keeps flags off revealed squares unless it loses.
   */
  lemma ClickPreserves(st: GameState, i: int, j: int)
    requires WellFormed(st) && InBounds(st.grid, i, j)
    ensures var r := Click(st, i, j);
      WellFormed(r) && Count(r.grid, Mine) == Count(st.grid, Mine) &&
      (Consistent(st.grid) ==> Consistent(r.grid)) &&
      (FlagsTracked(st) ==> FlagsTracked(r)) &&
      (NoFlaggedRevealed(st.grid) && !Lost(r) ==> NoFlaggedRevealed(r.grid))
  {
    var r := Click(st, i, j);
    ClickOutcome(st, i, j);
    if Accepted(st, i, j) {
      UncoversKeeps(st.grid, r.grid, st.numRows, st.numCols);
      if NoFlaggedRevealed(st.grid) && !Lost(r) {
        RevealsOnlyNoFlaggedRevealed(st.grid, r.grid);
      }
    }
  }

  /** The loss display can leave a flag on a revealed square: a flagged non-mine next to the clicked mine. */
  lemma LossRevealsFlaggedSquare()
    ensures var st := GameState([[Square(-1, false, false), Square(1, false, true)]], 1, 2, 1, 1,
                                false, false, false, None);
      NoFlaggedRevealed(st.grid) && !NoFlaggedRevealed(Click(st, 0, 0).grid)
  {
    var st := GameState([[Square(-1, false, false), Square(1, false, true)]], 1, 2, 1, 1,
                        false, false, false, None);
    assert Click(st, 0, 0).grid[0][1] == Square(1, true, true);
  }

  // ---------------------------------------------------------------------------
  // The mouse handler and the flag toggle.

  /**
   * The flag toggle unflags a flagged square, flags an unflagged one while
   * numFlags < numBombs, does nothing otherwise, and touches no other square.
   */
  lemma ToggleFlagSpec(st: GameState, i: int, j: int)
    requires InBounds(st.grid, i, j)
    ensures var r := ToggleFlag(st, i, j);
      var s := st.grid[i][j];
      SameShape(st.grid, r.grid) &&
      (forall a, c :: InBounds(st.grid, a, c) && (a != i || c != j) ==> r.grid[a][c] == st.grid[a][c]) &&
      r.grid[i][j].number == s.number && r.grid[i][j].isRevealed == s.isRevealed &&
      r.gameOver == st.gameOver && r.wonGame == st.wonGame && r.firstClick == st.firstClick &&
      r.numRows == st.numRows && r.numCols == st.numCols && r.numBombs == st.numBombs &&
      r.safeStart == st.safeStart &&
      (s.isFlagged ==> !r.grid[i][j].isFlagged && r.numFlags == st.numFlags - 1) &&
      (!s.isFlagged && st.numFlags < st.numBombs ==> r.grid[i][j].isFlagged && r.numFlags == st.numFlags + 1) &&
      (!s.isFlagged && st.numFlags >= st.numBombs ==> r == st)
  {
  }

  /** numFlags keeps counting the flagged squares, between 0 and numBombs, across a toggle. */
  lemma ToggleFlagPreserves(st: GameState, i: int, j: int)
    requires WellFormed(st) && InBounds(st.grid, i, j) && !st.grid[i][j].isRevealed
    ensures var r := ToggleFlag(st, i, j);
      WellFormed(r) && Count(r.grid, Mine) == Count(st.grid, Mine) &&
      (FlagsTracked(st) ==> FlagsTracked(r)) &&
      (Consistent(st.grid) ==> Consistent(r.grid)) &&
      (NoFlaggedRevealed(st.grid) ==> NoFlaggedRevealed(r.grid))
  {
    var s := st.grid[i][j];
    if s.isFlagged || st.numBombs - st.numFlags > 0 {
      var t := s.SetIsFlagged(!s.isFlagged);
      FlagUpdate(st.grid, i, j, t);
      assert ToggleFlag(st, i, j).grid == Update(st.grid, i, j, t);
    }
  }

  /** Flipping one hidden square's flag changes the flag count by one and keeps the field's invariants. */
  lemma FlagUpdate(g: Grid, i: int, j: int, t: Square)
    requires InBounds(g, i, j) && !g[i][j].isRevealed && t == g[i][j].SetIsFlagged(!g[i][j].isFlagged)
    ensures var h := Update(g, i, j, t);
      SameShape(g, h) && Count(h, Mine) == Count(g, Mine) &&
      Count(h, Flagged) == Count(g, Flagged) + (if t.isFlagged then 1 else -1) &&
      (ValidNumbers(g) ==> ValidNumbers(h)) && (NoRevealedMine(g) ==> NoRevealedMine(h)) &&
      (Consistent(g) ==> Consistent(h)) && (NoFlaggedRevealed(g) ==> NoFlaggedRevealed(h))
  {
    CountUpdate(g, i, j, t, Flagged);
    CountUpdate(g, i, j, t, Mine);
    FlagMovesNoMine(g, i, j, t);
  }

  /** Changing a square's flag moves no mine and no number. */
  lemma FlagMovesNoMine(g: Grid, i: int, j: int, t: Square)
    requires InBounds(g, i, j) && t.number == g[i][j].number && t.isRevealed == g[i][j].isRevealed
    ensures var h := Update(g, i, j, t);
      (ValidNumbers(g) ==> ValidNumbers(h)) && (NoRevealedMine(g) ==> NoRevealedMine(h)) &&
      (Consistent(g) ==> Consistent(h)) &&
      (NoFlaggedRevealed(g) && !t.isRevealed ==> NoFlaggedRevealed(h))
  {
    var h := Update(g, i, j, t);
    forall a, c | InBounds(h, a, c) && !h[a][c].IsBomb() && Consistent(g)
      ensures h[a][c].number == NeighborMines(h, a, c)
    {
      SameMinesAmong(g, h, a, c, 9);
    }
  }

  /**
   * The mouse handler ignores a finished game and left clicks; a right click
   * on a hidden square toggles its flag; any other non-left click on a
   * revealed square is a square click.
   */
  lemma MouseClickedSpec(st: GameState, i: int, j: int, b: Button)
    requires InBounds(st.grid, i, j)
    ensures var r := MouseClicked(st, i, j, b);
      (st.gameOver || b == LeftButton ==> r == st) &&
      (!st.gameOver && b == RightButton && !st.grid[i][j].isRevealed ==> r == ToggleFlag(st, i, j)) &&
      (!st.gameOver && b != LeftButton && st.grid[i][j].isRevealed ==> r == Click(st, i, j)) &&
      (b == OtherButton && !st.grid[i][j].isRevealed ==> r == st)
  {
  }

  /**
   * The mouse handler keeps the session well formed, keeps numFlags the count
   * of flagged squares within 0..numBombs, and keeps flags off revealed
   * squares unless the click loses.
   */
  lemma MouseClickedPreserves(st: GameState, i: int, j: int, b: Button)
    requires WellFormed(st) && InBounds(st.grid, i, j)
    ensures var r := MouseClicked(st, i, j, b);
      WellFormed(r) && Count(r.grid, Mine) == Count(st.grid, Mine) &&
      (FlagsTracked(st) ==> FlagsTracked(r)) &&
      (Consistent(st.grid) ==> Consistent(r.grid)) &&
      (NoFlaggedRevealed(st.grid) && !Lost(r) ==> NoFlaggedRevealed(r.grid))
  {
    var s := st.grid[i][j];
    if st.gameOver {
    } else if b == RightButton && !s.isRevealed {
      ToggleFlagPreserves(st, i, j);
    } else if b != LeftButton && s.isRevealed {
      ClickPreserves(st, i, j);
    }
  }
}
