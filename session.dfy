/**
 * The game session of gui/Board.java as a value: the field plus the fields
 * numRows, numCols, numBombs, numFlags, gameOver, wonGame, firstClick and the
 * "X" marker, and the transitions the square click, the mouse handler,
 * endGame and newGame perform on them.
 */
module Session {
  import opened Wrappers
  import opened Squares
  import opened Grids
  import opened Generation
  import opened FloodFill

  datatype GameState = GameState(
    grid: Grid,
    numRows: int,
    numCols: int,
    numBombs: int,
    numFlags: int,
    gameOver: bool,
    wonGame: bool,
    firstClick: bool,
    safeStart: Option<(nat, nat)>)  // hasX, and where the "X" is
  {
    predicate HasX() {
      safeStart.Some?
    }
  }

  /** The shape every session keeps: a rows-by-cols field of valid squares, no mine revealed. */
  ghost predicate WellFormed(st: GameState) {
    st.numRows > 0 && st.numCols > 0 && (st.wonGame ==> st.gameOver) &&
    IsGrid(st.grid, st.numRows, st.numCols) && ValidNumbers(st.grid) && NoRevealedMine(st.grid) &&
    (st.safeStart.Some? ==> InBounds(st.grid, st.safeStart.value.0, st.safeStart.value.1))
  }

  /** numFlags counts the flagged squares and never exceeds numBombs. */
  ghost predicate FlagsTracked(st: GameState) {
    st.numFlags == Count(st.grid, Flagged) && 0 <= st.numFlags <= st.numBombs
  }

  // ---------------------------------------------------------------------------
  // Construction and newGame.

  /** What the Board constructor accepts; anything else is an IllegalArgumentException. */
  predicate ValidDimensions(rows: int, cols: int, bombs: int) {
    rows > 0 && cols > 0 && bombs >= 0 && bombs <= rows * cols
  }

  /** The random stream stands in for java.util.Random: in range, with enough distinct points. */
  predicate EnoughDraws(draws: seq<Point>, rows: int, cols: int, bombs: int) {
    DrawsInRange(draws, rows, cols) && 0 <= bombs <= |Dedup(draws)|
  }

  /** generateField: a new field for the current dimensions, and the "X" on its first zero. */
  function GenerateField(st: GameState, draws: seq<Point>): (r: GameState)
    requires st.numRows >= 0 && st.numCols >= 0
    requires EnoughDraws(draws, st.numRows, st.numCols, st.numBombs)
  {
    var g := GeneratedGrid(st.numRows, st.numCols, MinePlacement(draws, st.numBombs));
    st.(grid := g, safeStart := FirstZero(g))
  }

  /** newGame: fresh session flags, no flags placed, a new field. */
  function NewGame(st: GameState, draws: seq<Point>): GameState
    requires st.numRows >= 0 && st.numCols >= 0
    requires EnoughDraws(draws, st.numRows, st.numCols, st.numBombs)
  {
    GenerateField(st.(firstClick := true, wonGame := false, gameOver := false, numFlags := 0), draws)
  }

  /** The Board constructor: rejects bad dimensions, otherwise a fresh game. */
  function Initial(rows: int, cols: int, bombs: int, draws: seq<Point>): Option<GameState>
    requires ValidDimensions(rows, cols, bombs) ==> EnoughDraws(draws, rows, cols, bombs)
  {
    if !(rows > 0 && cols > 0 && bombs >= 0 && bombs <= rows * cols) then None
    else Some(GenerateField(GameState([], rows, cols, bombs, 0, false, false, true, None), draws))
  }

  /** A new game or a constructed board is well formed, consistent, with exactly numBombs mines and no flags. */
  lemma NewGameSpec(st: GameState, draws: seq<Point>)
    requires st.numRows > 0 && st.numCols > 0
    requires EnoughDraws(draws, st.numRows, st.numCols, st.numBombs)
    ensures var r := NewGame(st, draws);
      WellFormed(r) && Consistent(r.grid) && FlagsTracked(r) &&
      r.numFlags == 0 && Count(r.grid, Flagged) == 0 &&
      Count(r.grid, Mine) == st.numBombs && Count(r.grid, Revealed) == 0 &&
      r.firstClick && !r.gameOver && !r.wonGame &&
      (r.HasX() <==> exists i, j :: InBounds(r.grid, i, j) && r.grid[i][j].number == 0) &&
      (r.HasX() ==> IsFirstZero(r.grid, r.safeStart.value.0, r.safeStart.value.1))
  {
    var mines := MinePlacement(draws, st.numBombs);
    assert Distinct(mines) && DrawsInRange(mines, st.numRows, st.numCols) by {
      assert forall p :: p in mines ==> p in Dedup(draws);
    }
    var g := GeneratedGrid(st.numRows, st.numCols, mines);
    GeneratedConsistent(st.numRows, st.numCols, mines);
    GeneratedMineCount(st.numRows, st.numCols, mines);
    FirstZeroSpec(g);
    CountNone(g, Revealed);
  }

  lemma InitialSpec(rows: int, cols: int, bombs: int, draws: seq<Point>)
    requires ValidDimensions(rows, cols, bombs) ==> EnoughDraws(draws, rows, cols, bombs)
    ensures Initial(rows, cols, bombs, draws).None? <==> !ValidDimensions(rows, cols, bombs)
    ensures Initial(rows, cols, bombs, draws).Some? ==>
              var r := Initial(rows, cols, bombs, draws).value;
              r == NewGame(r, draws) && WellFormed(r) && Consistent(r.grid) && FlagsTracked(r) &&
              Count(r.grid, Mine) == bombs
  {
    if ValidDimensions(rows, cols, bombs) {
      var st := GameState([], rows, cols, bombs, 0, false, false, true, None);
      NewGameSpec(st, draws);
    }
  }

  // ---------------------------------------------------------------------------
  // endGame.

  function RevealIfSafe(s: Square): Square {
    match s.Reveal()
    case BombException => s
    case RevealedSquare(t) => t
  }

  /** The loss display: every non-mine is revealed, flagged or not; mines stay as they are. */
  function RevealSafe(g: Grid): (h: Grid)
    ensures |h| == |g| && forall r :: 0 <= r < |g| ==> |h[r]| == |g[r]|
  {
    seq(|g|, r requires 0 <= r < |g| => seq(|g[r]|, c requires 0 <= c < |g[r]| => RevealIfSafe(g[r][c])))
  }

  /** endGame(won) */
  function EndGame(st: GameState, won: bool): GameState {
    var over := st.(gameOver := true, wonGame := won);
    if won then over else over.(grid := RevealSafe(st.grid))
  }

  // ---------------------------------------------------------------------------
  // The square click (the Square branch of actionPerformed).

  /** Flagged squares among the first k neighbourhood positions of (i, j). */
  function FlaggedAmong(g: Grid, i: int, j: int, k: nat): (n: nat)
    requires k <= 9
    ensures n <= k
  {
    if k == 0 then 0
    else
      var r, c := NeighborRow(i, k - 1), NeighborCol(j, k - 1);
      FlaggedAmong(g, i, j, k - 1) + (if InBounds(g, r, c) && g[r][c].isFlagged then 1 else 0)
  }

  /**
   * The chord: reveal every unflagged in-bounds neighbour, from position k on,
   * in neighbourhood order; the first mine stops it and reports a hit.
   */
  function ChordFrom(g: Grid, i: int, j: int, k: nat): (res: (Grid, bool))
    requires k <= 9
    decreases 9 - k
    ensures |res.0| == |g| && forall r :: 0 <= r < |g| ==> |res.0[r]| == |g[r]|
  {
    if k == 9 then (g, false)
    else
      var r, c := NeighborRow(i, k), NeighborCol(j, k);
      if InBounds(g, r, c) && !g[r][c].isFlagged then
        match g[r][c].Reveal()
        case BombException => (g, true)
        case RevealedSquare(t) => ChordFrom(Update(g, r, c, t), i, j, k + 1)
      else ChordFrom(g, i, j, k + 1)
  }

  /** The win test at the end of a click: revealed squares equal rows * cols - numBombs. */
  function WinCheck(st: GameState): GameState {
    if st.numRows * st.numCols - st.numBombs - Count(st.grid, Revealed) == 0 then EndGame(st, true) else st
  }

  /** The rest of the click once the clicked square has been dealt with. */
  function AfterReveal(st: GameState, i: int, j: int, revealedSquare: bool): GameState
    requires InBounds(st.grid, i, j)
  {
    var s := st.grid[i][j];
    if s.number == 0 && s.isRevealed then
      WinCheck(st.(grid := Fill(st.grid)))
    else if s.isRevealed && !revealedSquare then
      if s.number - FlaggedAmong(st.grid, i, j, 9) <= 0 then
        var res := ChordFrom(st.grid, i, j, 0);
        if res.1 then EndGame(st.(grid := res.0), false)
        else WinCheck(st.(grid := Fill(res.0)))
      else WinCheck(st.(grid := Fill(st.grid)))
    else WinCheck(st)
  }

  /** A click is accepted unless the game is over or the first click misses the "X". */
  predicate Accepted(st: GameState, i: int, j: int) {
    !st.gameOver && !(st.firstClick && st.HasX() && st.safeStart.value != (i, j))
  }

  /** actionPerformed for a square. */
  function Click(st: GameState, i: int, j: int): GameState
    requires InBounds(st.grid, i, j)
  {
    if !Accepted(st, i, j) then st else RevealClicked(st.(firstClick := false), i, j)
  }

  /** An accepted click: reveal the clicked square unless it is flagged or revealed; a mine loses. */
  function RevealClicked(st: GameState, i: int, j: int): GameState
    requires InBounds(st.grid, i, j)
  {
    var s := st.grid[i][j];
    if !s.isFlagged && !s.isRevealed then
      match s.Reveal()
      case BombException => EndGame(st, false)
      case RevealedSquare(t) => AfterReveal(st.(grid := Update(st.grid, i, j, t)), i, j, true)
    else AfterReveal(st, i, j, false)
  }

  // ---------------------------------------------------------------------------
  // The mouse handler: right click toggles a flag, a non-left click on a
  // revealed square acts like a square click.

  datatype Button = LeftButton | RightButton | OtherButton

  /** The right-click flag toggle, capped by numBombs - numFlags > 0. */
  function ToggleFlag(st: GameState, i: int, j: int): GameState
    requires InBounds(st.grid, i, j)
  {
    var s := st.grid[i][j];
    if !s.isFlagged && st.numBombs - st.numFlags > 0 then
      st.(grid := Update(st.grid, i, j, s.SetIsFlagged(true)), numFlags := st.numFlags + 1)
    else if s.isFlagged then
      st.(grid := Update(st.grid, i, j, s.SetIsFlagged(false)), numFlags := st.numFlags - 1)
    else st
  }

  /** mouseClicked */
  function MouseClicked(st: GameState, i: int, j: int, b: Button): GameState
    requires InBounds(st.grid, i, j)
  {
    if st.gameOver then st
    else if b == RightButton && !st.grid[i][j].isRevealed then ToggleFlag(st, i, j)
    else if b != LeftButton && st.grid[i][j].isRevealed then Click(st, i, j)
    else st
  }
}
