/**
 * The Board of gui/Board.java as an object: the session fields and the
 * squares array, with the methods that update them in place. Every method is
 * proved to take the session to the state the functions of Session and
 * SaveCodec describe.
 */
module Engine {
  import opened Wrappers
  import opened Squares
  import opened Grids
  import opened Generation
  import opened FloodFill
  import opened Session
  import opened SaveCodec
  import opened SessionProperties

  /** The contents of a squares array, row by row. */
  function GridOf(a: array2<Square>): (g: Grid)
    reads a
    ensures IsGrid(g, a.Length0, a.Length1)
    ensures forall i, j :: 0 <= i < a.Length0 && 0 <= j < a.Length1 ==> g[i][j] == a[i, j]
  {
    seq(a.Length0, i requires 0 <= i < a.Length0 reads a =>
      seq(a.Length1, j requires 0 <= j < a.Length1 reads a => a[i, j]))
  }

  /** squares[i][j] = s */
  method SetSquare(a: array2<Square>, i: int, j: int, s: Square)
    requires 0 <= i < a.Length0 && 0 <= j < a.Length1
    modifies a
    ensures GridOf(a) == Update(old(GridOf(a)), i, j, s)
  {
    ghost var g := GridOf(a);
    a[i, j] := s;
    GridExt(GridOf(a), Update(g, i, j, s));
  }

  // ---------------------------------------------------------------------------
  // generateField, in three loops.

  /**
   * The sampling loop: each round draws (x, y); a draw equal to an earlier kept
   * one is dropped and the round repeated, until numBombs positions are kept.
   */
  method PlaceMines(rows: int, cols: int, bombs: nat, draws: seq<Point>) returns (mines: seq<Point>)
    requires EnoughDraws(draws, rows, cols, bombs)
    ensures mines == MinePlacement(draws, bombs)
  {
    var locations := new Point[bombs](_ => Point(0, 0));
    var i, d := 0, 0;
    assert draws[..|draws|] == draws;
    while i < bombs
      invariant 0 <= i <= bombs && 0 <= d <= |draws|
      invariant locations[..i] == Dedup(draws[..d])
      decreases |draws| - d
    {
      assert d < |draws|;
      var p := draws[d];
      assert draws[..d + 1] == draws[..d] + [p];
      d := d + 1;
      locations[i] := p;
      var duplicate := IsDuplicate(locations, i);
      if !duplicate {
        assert p !in locations[..i];
        assert locations[..i + 1] == locations[..i] + [p];
        i := i + 1;
      }
    }
    DedupPrefix(draws, d);
    mines := locations[..];
    assert locations[..] == locations[..i];
  }

  /** The scan for an earlier kept position equal to the one just drawn into locations[i]. */
  method IsDuplicate(locations: array<Point>, i: int) returns (duplicate: bool)
    requires 0 <= i < locations.Length
    ensures duplicate <==> locations[i] in locations[..i]
  {
    duplicate := false;
    var j := 0;
    while j < i && !duplicate
      invariant 0 <= j <= i
      invariant !duplicate ==> forall m :: 0 <= m < j ==> locations[m] != locations[i]
      invariant duplicate ==> locations[i] in locations[..i]
    {
      if locations[j] == locations[i] {
        duplicate := true;
      }
      j := j + 1;
    }
  }

  /** squares = new Square[rows][cols], then a mine at every kept position; the rest stays unset. */
  method LayMines(rows: nat, cols: nat, mines: seq<Point>) returns (a: array2<Square>)
    requires DrawsInRange(mines, rows, cols)
    ensures fresh(a) && a.Length0 == rows && a.Length1 == cols
    ensures GridOf(a) == MaskGrid(rows, cols, mines)
  {
    a := new Square[rows, cols]((i, j) => Square(0, false, false));
    GridExt(GridOf(a), MaskGrid(rows, cols, []));
    var n := 0;
    while n < |mines|
      invariant 0 <= n <= |mines|
      invariant GridOf(a) == MaskGrid(rows, cols, mines[..n])
    {
      var p := mines[n];
      assert p in mines;
      SetSquare(a, p.y, p.x, Square(-1, false, false));
      MaskGridSnoc(rows, cols, mines[..n], p);
      assert mines[..n + 1] == mines[..n] + [p];
      n := n + 1;
    }
    assert mines[..n] == mines;
  }

  /** The mines around (i, j), counting only in-bounds neighbours. */
  method CountNeighborBombs(a: array2<Square>, i: int, j: int) returns (count: nat)
    ensures count == MinesAmong(GridOf(a), i, j, 9)
  {
    count := 0;
    var k := 0;
    while k < 9
      invariant 0 <= k <= 9
      invariant count == MinesAmong(GridOf(a), i, j, k)
    {
      var r, c := i + RowOffset[k], j + ColOffset[k];
      if 0 <= r < a.Length0 && 0 <= c < a.Length1 && a[r, c].IsBomb() {
        count := count + 1;
      }
      k := k + 1;
    }
  }

  /** A square generateField has not numbered yet: a mine, or still unset. */
  function UnsetSquare(mines: seq<Point>, r: int, c: int): Square {
    if Point(c, r) in mines then Square(-1, false, false) else Square(0, false, false)
  }

  /** The numbering loop has reached (i, j): the squares before it are final, the rest unset. */
  ghost predicate NumberedBefore(a: array2<Square>, mines: seq<Point>, i: int, j: int)
    reads a
  {
    forall r, c :: 0 <= r < a.Length0 && 0 <= c < a.Length1 ==>
      a[r, c] == if Precedes(r, c, i, j) then GeneratedSquare(mines, r, c) else UnsetSquare(mines, r, c)
  }

  /** No square before (i, j) of the generated field is a zero. */
  ghost predicate NoZeroBefore(mines: seq<Point>, rows: int, cols: int, i: int, j: int) {
    forall r, c :: 0 <= r < rows && 0 <= c < cols && Precedes(r, c, i, j) ==> GeneratedSquare(mines, r, c).number != 0
  }

  /** One square of the numbering loop: an unset square gets its neighbouring mine count. */
  method NumberSquare(a: array2<Square>, mines: seq<Point>, i: int, j: int) returns (zero: bool)
    requires DrawsInRange(mines, a.Length0, a.Length1)
    requires 0 <= i < a.Length0 && 0 <= j < a.Length1
    requires NumberedBefore(a, mines, i, j)
    modifies a
    ensures NumberedBefore(a, mines, i, j + 1)
    ensures zero <==> GeneratedSquare(mines, i, j).number == 0
  {
    zero := false;
    if !a[i, j].IsBomb() {
      assert MinesAt(GridOf(a), mines);
      var count := CountNeighborBombs(a, i, j);
      MinesAmongFromList(GridOf(a), a.Length0, a.Length1, mines, i, j, 9);
      a[i, j] := Square(count, false, false);
      zero := count == 0;
    }
  }

  /**
   * The numbering loop: every unset square gets the count of its neighbouring
   * mines, and the first zero met in row-major order gets the "X".
   */
  method NumberSquares(a: array2<Square>, mines: seq<Point>) returns (hasX: bool, x: (nat, nat))
    requires DrawsInRange(mines, a.Length0, a.Length1)
    requires GridOf(a) == MaskGrid(a.Length0, a.Length1, mines)
    modifies a
    ensures GridOf(a) == GeneratedGrid(a.Length0, a.Length1, mines)
    ensures (if hasX then Some(x) else None) == FirstZero(GridOf(a))
  {
    ghost var rows, cols := a.Length0, a.Length1;
    ghost var gen := GeneratedGrid(rows, cols, mines);
    hasX, x := false, (0, 0);
    var i := 0;
    while i < a.Length0
      invariant 0 <= i <= rows
      invariant NumberedBefore(a, mines, i, 0)
      invariant hasX ==> IsFirstZero(gen, x.0, x.1)
      invariant !hasX ==> NoZeroBefore(mines, rows, cols, i, 0)
    {
      hasX, x := NumberRow(a, mines, i, hasX, x);
      i := i + 1;
    }
    GridExt(GridOf(a), gen);
    FirstZeroSpec(gen);
  }

  /** Row i of the numbering loop; the "X" goes to the row's first zero unless it is already placed. */
  method NumberRow(a: array2<Square>, mines: seq<Point>, i: int, hasX0: bool, x0: (nat, nat))
      returns (hasX: bool, x: (nat, nat))
    requires DrawsInRange(mines, a.Length0, a.Length1)
    requires 0 <= i < a.Length0 && NumberedBefore(a, mines, i, 0)
    requires hasX0 ==> IsFirstZero(GeneratedGrid(a.Length0, a.Length1, mines), x0.0, x0.1)
    requires !hasX0 ==> NoZeroBefore(mines, a.Length0, a.Length1, i, 0)
    modifies a
    ensures NumberedBefore(a, mines, i + 1, 0)
    ensures hasX ==> IsFirstZero(GeneratedGrid(a.Length0, a.Length1, mines), x.0, x.1)
    ensures !hasX ==> NoZeroBefore(mines, a.Length0, a.Length1, i + 1, 0)
  {
    ghost var rows, cols := a.Length0, a.Length1;
    ghost var gen := GeneratedGrid(rows, cols, mines);
    hasX, x := hasX0, x0;
    var j := 0;
    while j < a.Length1
      invariant 0 <= j <= cols
      invariant NumberedBefore(a, mines, i, j)
      invariant hasX ==> IsFirstZero(gen, x.0, x.1)
      invariant !hasX ==> NoZeroBefore(mines, rows, cols, i, j)
    {
      var zero := NumberSquare(a, mines, i, j);
      if zero && !hasX {
        hasX, x := true, (i, j);
      }
      j := j + 1;
    }
  }

  // ---------------------------------------------------------------------------
  // endGame's loss display and the zero flood fill, on the squares array.

  /** Reveal every square that is not a mine (the loss display of endGame). */
  method RevealAllSafe(a: array2<Square>)
    modifies a
    ensures GridOf(a) == RevealSafe(old(GridOf(a)))
  {
    ghost var g := GridOf(a);
    var i := 0;
    while i < a.Length0
      invariant 0 <= i <= a.Length0
      invariant forall r, c :: 0 <= r < a.Length0 && 0 <= c < a.Length1 ==>
                  a[r, c] == if r < i then RevealIfSafe(g[r][c]) else g[r][c]
    {
      var j := 0;
      while j < a.Length1
        invariant 0 <= j <= a.Length1
        invariant forall r, c :: 0 <= r < a.Length0 && 0 <= c < a.Length1 ==>
                    a[r, c] == if Precedes(r, c, i, j) then RevealIfSafe(g[r][c]) else g[r][c]
      {
        if !a[i, j].IsBomb() {
          match a[i, j].Reveal()
          case RevealedSquare(t) => a[i, j] := t;
          case BombException =>
        }
        j := j + 1;
      }
      i := i + 1;
    }
    GridExt(GridOf(a), RevealSafe(g));
  }

  /**
   * The inner scan of revealZeros for square (i, j): the first neighbour that
   * is a revealed zero makes it reveal the square, unless it is flagged or
   * already revealed; a mine refuses and the scan goes on.
   */
  method RevealIfNextToZero(a: array2<Square>, i: int, j: int) returns (revealed: bool)
    requires 0 <= i < a.Length0 && 0 <= j < a.Length1
    modifies a
    ensures GridOf(a) == Step(old(GridOf(a)), i, j)
    ensures revealed <==> ShouldReveal(old(GridOf(a)), i, j)
  {
    ghost var g := GridOf(a);
    revealed := false;
    var k := 0;
    while k < 9 && !revealed
      invariant 0 <= k <= 9
      invariant revealed ==> ShouldReveal(g, i, j) && GridOf(a) == Step(g, i, j)
      invariant !revealed ==> GridOf(a) == g
      invariant !revealed ==> a[i, j].IsBomb() || forall m :: 0 <= m < k ==>
                  !(RevealedZeroAt(g, NeighborRow(i, m), NeighborCol(j, m)) && !g[i][j].isFlagged && !g[i][j].isRevealed)
    {
      var r, c := i + RowOffset[k], j + ColOffset[k];
      if 0 <= r < a.Length0 && 0 <= c < a.Length1 {
        var n, s := a[r, c], a[i, j];
        if n.isRevealed && n.number == 0 && !s.isFlagged && !s.isRevealed {
          match s.Reveal()
          case RevealedSquare(t) =>
            assert ZeroNeighbor(g, i, j) by {
              assert RevealedZeroAt(g, NeighborRow(i, k), NeighborCol(j, k));
            }
            SetSquare(a, i, j, t);
            revealed := true;
          case BombException =>
        }
      }
      k := k + 1;
    }
  }

  /** One row of a pass of revealZeros; reports whether it revealed anything. */
  method RevealRow(a: array2<Square>, i: int) returns (revealed: bool)
    requires 0 <= i < a.Length0
    modifies a
    ensures PassFrom(GridOf(a), i + 1, 0) == PassFrom(old(GridOf(a)), i, 0)
    ensures RevealsOnly(old(GridOf(a)), GridOf(a))
    ensures revealed <==> GridOf(a) != old(GridOf(a))
  {
    ghost var g := GridOf(a);
    revealed := false;
    var j := 0;
    while j < a.Length1
      invariant 0 <= j <= a.Length1
      invariant PassFrom(GridOf(a), i, j) == PassFrom(g, i, 0)
      invariant RevealsOnly(g, GridOf(a))
      invariant revealed <==> GridOf(a) != g
    {
      ghost var before := GridOf(a);
      StepSpec(before, i, j);
      var r := RevealIfNextToZero(a, i, j);
      RevealsOnlyTrans(g, before, GridOf(a));
      if r {
        assert GridOf(a)[i][j].isRevealed && !g[i][j].isRevealed;
      }
      revealed := revealed || r;
      j := j + 1;
    }
  }

  /** One pass of revealZeros over the whole field; reports whether it revealed anything. */
  method RevealPass(a: array2<Square>) returns (revealed: bool)
    modifies a
    ensures GridOf(a) == Pass(old(GridOf(a)))
    ensures revealed <==> Pass(old(GridOf(a))) != old(GridOf(a))
  {
    ghost var g := GridOf(a);
    revealed := false;
    var i := 0;
    while i < a.Length0
      invariant 0 <= i <= a.Length0
      invariant PassFrom(GridOf(a), i, 0) == Pass(g)
      invariant RevealsOnly(g, GridOf(a))
      invariant revealed <==> GridOf(a) != g
    {
      ghost var before := GridOf(a);
      var r := RevealRow(a, i);
      RevealsOnlyTrans(g, before, GridOf(a));
      if revealed {
        RevealsOnlyStrict(g, before, GridOf(a));
      }
      revealed := revealed || r;
      i := i + 1;
    }
  }

  // ---------------------------------------------------------------------------
  // The loops of the square click.

  /** num starts at the square's number and drops by one per flagged in-bounds neighbour. */
  method SatisfiedCount(a: array2<Square>, i: int, j: int, number: int) returns (num: int)
    ensures num == number - FlaggedAmong(GridOf(a), i, j, 9)
  {
    num := number;
    var k := 0;
    while k < 9
      invariant 0 <= k <= 9
      invariant num == number - FlaggedAmong(GridOf(a), i, j, k)
    {
      var r, c := i + RowOffset[k], j + ColOffset[k];
      if 0 <= r < a.Length0 && 0 <= c < a.Length1 && a[r, c].isFlagged {
        num := num - 1;
      }
      k := k + 1;
    }
  }

  /** The chord: reveal the unflagged in-bounds neighbours in order; a mine stops it with a hit. */
  method RevealNeighbors(a: array2<Square>, i: int, j: int) returns (hit: bool)
    modifies a
    ensures (GridOf(a), hit) == ChordFrom(old(GridOf(a)), i, j, 0)
  {
    ghost var g := GridOf(a);
    hit := false;
    var k := 0;
    while k < 9 && !hit
      invariant 0 <= k <= 9
      invariant !hit ==> ChordFrom(GridOf(a), i, j, k) == ChordFrom(g, i, j, 0)
      invariant hit ==> (GridOf(a), true) == ChordFrom(g, i, j, 0)
    {
      var r, c := i + RowOffset[k], j + ColOffset[k];
      if 0 <= r < a.Length0 && 0 <= c < a.Length1 && !a[r, c].isFlagged {
        match a[r, c].Reveal()
        case RevealedSquare(t) =>
          SetSquare(a, r, c, t);
        case BombException =>
          hit := true;
      }
      k := k + 1;
    }
  }

  /** The win count: numSquares starts at total and drops by one per revealed square. */
  method UnrevealedSafe(a: array2<Square>, total: int) returns (numSquares: int)
    ensures numSquares == total - Count(GridOf(a), Revealed)
  {
    ghost var g := GridOf(a);
    numSquares := total;
    var i := 0;
    while i < a.Length0
      invariant 0 <= i <= a.Length0
      invariant numSquares == total - Count(g[..i], Revealed)
    {
      var j := 0;
      while j < a.Length1
        invariant 0 <= j <= a.Length1
        invariant numSquares == total - Count(g[..i], Revealed) - CountRow(g[i][..j], Revealed)
      {
        assert g[i][..j + 1][..j] == g[i][..j];
        if a[i, j].isRevealed {
          numSquares := numSquares - 1;
        }
        j := j + 1;
      }
      assert g[..i + 1][..i] == g[..i];
      assert g[i][..a.Length1] == g[i];
      i := i + 1;
    }
    assert g[..i] == g;
  }

  // ---------------------------------------------------------------------------
  // The loops of loadGame.

  /** Square n of the save file goes to (n / cols, n % cols); no two lines share a square. */
  lemma SameDivMod(n: int, m: int, cols: int)
    requires cols > 0 && n / cols == m / cols && n % cols == m % cols
    ensures n == m
  {
  }

  /**
   * The square lines of a save file into a new rows-by-cols array; an empty
   * line or one that does not parse stops the load.
   */
  method ReadSquares(lines: seq<string>, rows: int, cols: int) returns (a: array2<Square>, ok: bool)
    requires rows > 0 && cols > 0 && |lines| == 3 + rows * cols
    ensures fresh(a) && a.Length0 == rows && a.Length1 == cols
    ensures ok <==> ParseCells(lines[3..]).Some?
    ensures ok ==> GridOf(a) == Reshape(ParseCells(lines[3..]).value, rows, cols)
  {
    a := new Square[rows, cols]((r, c) => Square(0, false, false));
    var i := 3;
    while i < |lines|
      invariant 3 <= i <= |lines|
      invariant forall m :: 3 <= m < i ==> ParseCell(lines[m]).Some?
      invariant forall r, c :: 0 <= r < rows && 0 <= c < cols && 3 + FlatIndex(r, c, rows, cols) < i ==>
                  ParseCell(lines[3 + FlatIndex(r, c, rows, cols)]) == Some(a[r, c])
    {
      var line := lines[i];
      assert lines[3..][i - 3] == line;
      if |line| == 0 {
        return a, false;
      }
      var square := ParseCell(line);
      if square.None? {
        return a, false;
      }
      FlatIndexBounds(i - 3, rows, cols);
      ghost var row, col := (i - 3) / cols, (i - 3) % cols;
      a[(i - 3) / cols, (i - 3) % cols] := square.value;
      forall r, c | 0 <= r < rows && 0 <= c < cols && FlatIndex(r, c, rows, cols) == i - 3
        ensures r == row && c == col
      {
      }
      forall r, c | 0 <= r < rows && 0 <= c < cols && r == row && c == col
        ensures FlatIndex(r, c, rows, cols) == i - 3
      {
        SameDivMod(FlatIndex(r, c, rows, cols), i - 3, cols);
      }
      i := i + 1;
    }
    ok := true;
    assert forall n :: 0 <= n < |lines[3..]| ==> lines[3..][n] == lines[3 + n];
    var cells := ParseCells(lines[3..]).value;
    GridExt(GridOf(a), Reshape(cells, rows, cols));
  }

  /** Every non-mine must show the number of mines around it. */
  method CheckNeighbors(a: array2<Square>) returns (isValid: bool)
    ensures isValid <==> Consistent(GridOf(a))
  {
    ghost var g: Grid := GridOf(a);
    isValid := true;
    var i := 0;
    while i < a.Length0
      invariant 0 <= i <= a.Length0
      invariant isValid <==> forall r, c :: 0 <= r < i && 0 <= c < a.Length1 && !g[r][c].IsBomb() ==>
                               g[r][c].number == NeighborMines(g, r, c)
    {
      var j := 0;
      while j < a.Length1
        invariant 0 <= j <= a.Length1
        invariant isValid <==> forall r, c :: 0 <= r < a.Length0 && 0 <= c < a.Length1 && Precedes(r, c, i, j) && !g[r][c].IsBomb() ==>
                                 g[r][c].number == NeighborMines(g, r, c)
      {
        if !a[i, j].IsBomb() {
          var numNeighborBombs := CountNeighborBombs(a, i, j);
          if numNeighborBombs != a[i, j].number {
            isValid := false;
          }
        }
        j := j + 1;
      }
      i := i + 1;
    }
  }

  /**
   * The header checks of loadGame, in Java int arithmetic: three ints, positive
   * dimensions and mine count, fewer mines than squares, and 3 + rows * cols lines.
   */
  method ReadHeader(lines: seq<string>) returns (header: Option<(int, int, int)>)
    ensures header.None? ==> Decode(lines).None?
    ensures header.Some? ==>
              var (rows, cols, bombs) := header.value;
              rows > 0 && cols > 0 && |lines| == 3 + rows * cols &&
              Decode(lines) == DecodeSquares(lines, rows, cols, bombs)
  {
    if |lines| < 3 {
      return None;
    }
    var rows, cols, bombs := ParseInt32(lines[0]), ParseInt32(lines[1]), ParseInt32(lines[2]);
    if rows.None? || cols.None? || bombs.None? {
      return None;
    }
    var newNumRows, newNumCols, newNumBombs := rows.value, cols.value, bombs.value;
    ghost var d := Decode(lines);
    assert d == DecodeField(lines, newNumRows, newNumCols, newNumBombs);
    if newNumRows <= 0 || newNumCols <= 0 || newNumBombs <= 0 || newNumBombs >= Wrap32(newNumCols * newNumRows) {
      return None;
    }
    var expectedNumLines := Wrap32(3 + Wrap32(newNumCols * newNumRows));
    if |lines| != expectedNumLines {
      return None;
    }
    if newNumCols * newNumRows > MaxInt32 {
      return None;
    }
    MulNonNeg(newNumCols, newNumRows);
    assert |lines| == 3 + newNumRows * newNumCols;
    return Some((newNumRows, newNumCols, newNumBombs));
  }

  /** The squares of an accepted header, then the neighbour check: the part of loadGame after the header. */
  method ReadField(lines: seq<string>, rows: int, cols: int, bombs: int) returns (a: array2<Square>, isValid: bool)
    requires rows > 0 && cols > 0 && |lines| == 3 + rows * cols
    ensures fresh(a) && a.Length0 == rows && a.Length1 == cols
    ensures isValid <==> DecodeSquares(lines, rows, cols, bombs).Some?
    ensures isValid ==> DecodeSquares(lines, rows, cols, bombs) == Some(Loaded(rows, cols, bombs, GridOf(a)))
  {
    a, isValid := ReadSquares(lines, rows, cols);
    if isValid {
      isValid := CheckNeighbors(a);
    }
  }

  lemma EncodedHeader(rows: int, cols: int, bombs: int, g: Grid)
    requires rows > 0 && cols > 0 && IsGrid(g, rows, cols)
    ensures JoinLines(EncodeLines(rows, cols, bombs, g)[..3]) ==
              IntToString(rows) + "\n" + IntToString(cols) + "\n" + IntToString(bombs) + "\n"
  {
    var lines := EncodeLines(rows, cols, bombs, g);
    assert lines[..3] == [IntToString(rows)] + [IntToString(cols)] + [IntToString(bombs)];
    JoinLinesSnoc([], IntToString(rows));
    JoinLinesSnoc([IntToString(rows)], IntToString(cols));
    JoinLinesSnoc([IntToString(rows)] + [IntToString(cols)], IntToString(bombs));
  }

  lemma EncodedSquare(rows: int, cols: int, bombs: int, g: Grid, n: int)
    requires rows > 0 && cols > 0 && IsGrid(g, rows, cols) && 0 <= n < rows * cols
    ensures 0 <= n / cols < rows && 0 <= n % cols < cols
    ensures var lines := EncodeLines(rows, cols, bombs, g);
      JoinLines(lines[..3 + n + 1]) == JoinLines(lines[..3 + n]) + CellLine(g[n / cols][n % cols]) + "\n"
  {
    FlatIndexBounds(n, rows, cols);
    EncodedLineAt(rows, cols, bombs, g, n);
    JoinLinesPrefix(EncodeLines(rows, cols, bombs, g), 3 + n);
  }

  lemma JoinLinesPrefix(lines: seq<string>, k: int)
    requires 0 <= k < |lines|
    ensures JoinLines(lines[..k + 1]) == JoinLines(lines[..k]) + lines[k] + "\n"
  {
    assert lines[..k + 1] == lines[..k] + [lines[k]];
    JoinLinesSnoc(lines[..k], lines[k]);
  }

  lemma EncodedLineAt(rows: int, cols: int, bombs: int, g: Grid, n: int)
    requires rows > 0 && cols > 0 && IsGrid(g, rows, cols) && 0 <= n < rows * cols
    ensures 0 <= n / cols < rows && 0 <= n % cols < cols
    ensures EncodeLines(rows, cols, bombs, g)[3 + n] == CellLine(g[n / cols][n % cols])
  {
    FlatIndexBounds(n, rows, cols);
    var cells := Flatten(g, rows, cols);
    var cl := CellLines(cells);
    assert cells[n] == g[n / cols][n % cols];
    assert cl[n] == CellLine(cells[n]);
    assert EncodeLines(rows, cols, bombs, g) == [IntToString(rows), IntToString(cols), IntToString(bombs)] + cl;
  }

  // ---------------------------------------------------------------------------
  // The board.

  class Board {
    var numRows: int
    var numCols: int
    var numBombs: int
    var numFlags: int
    var squares: array2<Square>
    var gameOver: bool
    var wonGame: bool
    var firstClick: bool
    var hasX: bool
    var xSquare: (nat, nat)  // the square that shows the "X" while hasX holds

    /** The session the fields and the squares array hold. */
    function State(): GameState
      reads this, squares
    {
      GameState(GridOf(squares), numRows, numCols, numBombs, numFlags, gameOver, wonGame, firstClick,
                if hasX then Some(xSquare) else None)
    }

    /** The class invariant: a well-formed session on a numRows-by-numCols array. */
    ghost predicate Valid()
      reads this, squares
    {
      squares.Length0 == numRows && squares.Length1 == numCols && WellFormed(State())
    }

    /** The constructor once its argument checks have passed. */
    constructor (rows: int, cols: int, bombs: int, draws: seq<Point>)
      requires ValidDimensions(rows, cols, bombs) && EnoughDraws(draws, rows, cols, bombs)
      ensures Some(State()) == Initial(rows, cols, bombs, draws)
      ensures Valid() && FlagsTracked(State()) && Consistent(State().grid)
    {
      numRows, numCols, numBombs, numFlags := rows, cols, bombs, 0;
      gameOver, wonGame, firstClick := false, false, true;
      hasX, xSquare := false, (0, 0);
      squares := new Square[0, 0];
      new;
      GenerateField(draws);
      InitialSpec(rows, cols, bombs, draws);
    }

    /** generateField */
    method GenerateField(draws: seq<Point>)
      requires numRows >= 0 && numCols >= 0 && EnoughDraws(draws, numRows, numCols, numBombs)
      modifies this
      ensures State() == Session.GenerateField(old(State()), draws)
      ensures fresh(squares)
    {
      var mines := PlaceMines(numRows, numCols, numBombs, draws);
      assert forall p :: p in mines ==> p in Dedup(draws);
      var a := LayMines(numRows, numCols, mines);
      var found, x := NumberSquares(a, mines);
      squares, hasX, xSquare := a, found, x;
    }

    /** newGame */
    method NewGame(draws: seq<Point>)
      requires numRows >= 0 && numCols >= 0 && EnoughDraws(draws, numRows, numCols, numBombs)
      modifies this
      ensures State() == Session.NewGame(old(State()), draws)
      ensures numRows > 0 && numCols > 0 ==> Valid() && FlagsTracked(State()) && Consistent(State().grid)
    {
      firstClick, hasX, wonGame, gameOver := true, false, false, false;
      numFlags := 0;
      ghost var st := State();
      GenerateField(draws);
      if numRows > 0 && numCols > 0 {
        NewGameSpec(st, draws);
      }
    }

    /** endGame */
    method EndGame(won: bool)
      modifies this, squares
      ensures State() == Session.EndGame(old(State()), won)
      ensures squares == old(squares)
    {
      gameOver, wonGame := true, won;
      if !won {
        RevealAllSafe(squares);
      }
    }

    /** The constructor: dimensions it rejects throw an IllegalArgumentException, here None. */
    static method Create(rows: int, cols: int, bombs: int, draws: seq<Point>) returns (b: Option<Board>)
      requires ValidDimensions(rows, cols, bombs) ==> EnoughDraws(draws, rows, cols, bombs)
      ensures b.None? <==> !ValidDimensions(rows, cols, bombs)
      ensures b.Some? ==> fresh(b.value) && Some(b.value.State()) == Initial(rows, cols, bombs, draws)
      ensures b.Some? ==> b.value.Valid() && FlagsTracked(b.value.State())
    {
      if !(rows > 0 && cols > 0 && bombs >= 0 && bombs <= rows * cols) {
        return None;
      }
      var board := new Board(rows, cols, bombs, draws);
      return Some(board);
    }

    /** revealZeros */
    method RevealZeros()
      modifies squares
      ensures State() == old(State()).(grid := Fill(old(State()).grid))
    {
      ghost var g := GridOf(squares);
      while true
        invariant Fill(GridOf(squares)) == Fill(g)
        decreases Count(GridOf(squares), Hidden)
      {
        PassFromSpec(GridOf(squares), 0, 0);
        var revealed := RevealPass(squares);
        if !revealed {
          break;
        }
      }
    }

    /** The win test at the end of a square click. */
    method WinCheck()
      modifies this, squares
      ensures State() == Session.WinCheck(old(State()))
      ensures squares == old(squares)
    {
      var numSquares := UnrevealedSafe(squares, numRows * numCols - numBombs);
      if numSquares == 0 {
        EndGame(true);
      }
    }

    /** actionPerformed for the square (i, j). */
    method ClickSquare(i: int, j: int)
      requires Valid() && 0 <= i < numRows && 0 <= j < numCols
      modifies this, squares
      ensures State() == Click(old(State()), i, j)
      ensures squares == old(squares) && Valid()
    {
      ghost var st := State();
      ClickPreserves(st, i, j);
      if gameOver || (firstClick && hasX && xSquare != (i, j)) {
        return;
      }
      firstClick := false;
      RevealClicked(i, j);
    }

    /** The clicked square is revealed unless flagged or already revealed; revealing a mine loses. */
    method RevealClicked(i: int, j: int)
      requires 0 <= i < squares.Length0 && 0 <= j < squares.Length1
      modifies this, squares
      ensures State() == Session.RevealClicked(old(State()), i, j)
      ensures squares == old(squares)
    {
      var revealedSquare := false;
      var s := squares[i, j];
      if !s.isFlagged && !s.isRevealed {
        match s.Reveal()
        case BombException =>
          EndGame(false);
          return;
        case RevealedSquare(t) =>
          SetSquare(squares, i, j, t);
          revealedSquare := true;
      }
      FinishClick(i, j, revealedSquare);
    }

    /** The rest of actionPerformed once the clicked square itself has been dealt with. */
    method FinishClick(i: int, j: int, revealedSquare: bool)
      requires 0 <= i < squares.Length0 && 0 <= j < squares.Length1
      modifies this, squares
      ensures State() == AfterReveal(old(State()), i, j, revealedSquare)
      ensures squares == old(squares)
    {
      var s := squares[i, j];
      if s.number == 0 && s.isRevealed {
        RevealZeros();
      } else if s.isRevealed && !revealedSquare {
        var num := SatisfiedCount(squares, i, j, s.number);
        if num <= 0 {
          var hit := RevealNeighbors(squares, i, j);
          if hit {
            EndGame(false);
            return;
          }
        }
        RevealZeros();
      }
      WinCheck();
    }

    /** The mouse handler of a square. */
    method MouseClicked(i: int, j: int, b: Button)
      requires Valid() && 0 <= i < numRows && 0 <= j < numCols
      modifies this, squares
      ensures State() == Session.MouseClicked(old(State()), i, j, b)
      ensures squares == old(squares) && Valid()
    {
      ghost var st := State();
      MouseClickedPreserves(st, i, j, b);
      if gameOver {
        return;
      }
      if b == RightButton && !squares[i, j].isRevealed {
        ToggleFlag(i, j);
      } else if b != LeftButton && squares[i, j].isRevealed {
        ClickSquare(i, j);
      }
    }

    /** The right-click branch of the mouse handler: flag or unflag the square. */
    method ToggleFlag(i: int, j: int)
      requires Valid() && 0 <= i < numRows && 0 <= j < numCols
      modifies this, squares
      ensures State() == Session.ToggleFlag(old(State()), i, j)
      ensures squares == old(squares)
    {
      var s := squares[i, j];
      if !s.isFlagged && numBombs - numFlags > 0 {
        SetSquare(squares, i, j, s.SetIsFlagged(true));
        numFlags := numFlags + 1;
      } else if s.isFlagged {
        SetSquare(squares, i, j, s.SetIsFlagged(false));
        numFlags := numFlags - 1;
      }
    }

    /** getGameAsString: the header lines, then one line per square in row-major order. */
    method GameAsString() returns (text: string)
      requires Valid()
      ensures text == SaveCodec.GameAsString(State())
    {
      ghost var g := GridOf(squares);
      ghost var lines := EncodeLines(numRows, numCols, numBombs, g);
      text := IntToString(numRows) + "\n" + IntToString(numCols) + "\n" + IntToString(numBombs) + "\n";
      EncodedHeader(numRows, numCols, numBombs, g);
      var i := 0;
      while i < numRows * numCols
        invariant 0 <= i <= numRows * numCols
        invariant text == JoinLines(lines[..3 + i])
      {
        FlatIndexBounds(i, numRows, numCols);
        var row, col := i / numCols, i % numCols;
        var s := squares[row, col];
        EncodedSquare(numRows, numCols, numBombs, g, i);
        text := text + CellLine(s) + "\n";
        i := i + 1;
      }
      assert lines[..3 + i] == lines;
    }

    /** saveGame: nothing is written once the game is over. */
    method SaveGame() returns (text: Option<string>)
      requires Valid()
      ensures text == SaveText(State())
    {
      if gameOver {
        return None;
      }
      var s := GameAsString();
      return Some(s);
    }

    /**
     * loadGame: a file that fails any check leaves the board as it was; an
     * accepted one replaces the field and its dimensions and starts it without
     * the "X".
     */
    method LoadGame(lines: seq<string>)
      modifies this
      ensures State() == SaveCodec.LoadGame(old(State()), lines)
      ensures old(Valid()) ==> Valid()
    {
      var header := ReadHeader(lines);
      LoadGameSpec(State(), lines);
      if header.None? {
        return;
      }
      var newNumRows, newNumCols, newNumBombs := header.value.0, header.value.1, header.value.2;
      var newSquares, isValid := ReadField(lines, newNumRows, newNumCols, newNumBombs);
      if !isValid {
        return;
      }
      Install(newNumRows, newNumCols, newNumBombs, newSquares);
    }

    /** The accepted file takes over: the session flags are cleared and the new field installed. */
    method Install(rows: int, cols: int, bombs: int, a: array2<Square>)
      modifies this
      ensures State() == old(State()).(grid := GridOf(a), numRows := rows, numCols := cols, numBombs := bombs,
                                       firstClick := false, safeStart := None, gameOver := false, wonGame := false)
      ensures squares == a
    {
      firstClick, hasX, gameOver, wonGame := false, false, false, false;
      numBombs, numRows, numCols, squares := bombs, rows, cols, a;
    }
  }
}
