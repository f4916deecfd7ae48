/**
 * The save format of gui/Board.java: getGameAsString writes three header lines
 * (rows, columns, bombs) and then one line per square in row-major order, the
 * number followed by 'f' when flagged or else 'r' when revealed; the parsing
 * half of loadGame reads such lines back, with the quirks of its hand-written
 * cell parser, and either yields a new field or rejects the file.
 */
module SaveCodec {
  import opened Wrappers
  import opened Squares
  import opened Grids
  import opened Session

  const MinInt32: int := -0x8000_0000
  const MaxInt32: int := 0x7fff_ffff

  /** Java int arithmetic: the representative of x modulo 2^32 in [-2^31, 2^31). */
  function Wrap32(x: int): (r: int)
    ensures MinInt32 <= r <= MaxInt32 && (x - r) % 0x1_0000_0000 == 0
    ensures MinInt32 <= x <= MaxInt32 ==> r == x
    ensures MaxInt32 < x <= MaxInt32 + 0x1_0000_0000 ==> r == x - 0x1_0000_0000
  {
    (x - MinInt32) % 0x1_0000_0000 + MinInt32
  }

  // ---------------------------------------------------------------------------
  // Decimal numbers: Integer.toString and Integer.parseInt.

  predicate IsDigit(ch: char) {
    '0' <= ch <= '9'
  }

  predicate AllDigits(s: string) {
    forall i :: 0 <= i < |s| ==> IsDigit(s[i])
  }

  function DigitValue(ch: char): (d: nat)
    requires IsDigit(ch)
    ensures d < 10
  {
    ch as int - '0' as int
  }

  function DigitChar(d: nat): (ch: char)
    requires d < 10
    ensures IsDigit(ch) && DigitValue(ch) == d
  {
    ('0' as int + d) as char
  }

  /** The value of a string of decimal digits, most significant first. */
  function DigitsValue(s: string): nat
    requires AllDigits(s)
  {
    if |s| == 0 then 0 else DigitsValue(s[..|s| - 1]) * 10 + DigitValue(s[|s| - 1])
  }

  /** The decimal digits of n, without leading zeros. */
  function NatToString(n: nat): (s: string)
    ensures |s| > 0 && AllDigits(s)
  {
    if n < 10 then [DigitChar(n)] else NatToString(n / 10) + [DigitChar(n % 10)]
  }

  /** Integer.toString: a '-' before the digits of a negative number. */
  function IntToString(i: int): (s: string)
    ensures |s| > 0 && '\n' !in s
  {
    if i < 0 then "-" + NatToString(-i) else NatToString(i)
  }

  /** Integer.parseInt: an optional sign, at least one digit, and a value that fits an int. */
  function ParseInt32(s: string): (r: Option<int>)
    ensures r.Some? ==> MinInt32 <= r.value <= MaxInt32
  {
    var signed := |s| > 0 && (s[0] == '-' || s[0] == '+');
    var digits := if signed then s[1..] else s;
    if |digits| == 0 || !AllDigits(digits) then None
    else
      var magnitude: int := DigitsValue(digits);
      var v := if signed && s[0] == '-' then -magnitude else magnitude;
      if MinInt32 <= v <= MaxInt32 then Some(v) else None
  }

  lemma {:induction false} NatToStringValue(n: nat)
    ensures DigitsValue(NatToString(n)) == n
  {
    if n >= 10 {
      NatToStringValue(n / 10);
      var s := NatToString(n);
      assert s[..|s| - 1] == NatToString(n / 10);
    }
  }

  /** parseInt reads back what toString writes, for every int. */
  lemma ParseIntToString(n: int)
    requires MinInt32 <= n <= MaxInt32
    ensures ParseInt32(IntToString(n)) == Some(n)
  {
    var s := IntToString(n);
    if n < 0 {
      assert s[1..] == NatToString(-n);
      NatToStringValue(-n);
    } else {
      assert IsDigit(s[0]);
      NatToStringValue(n);
    }
  }

  /** isNumber: an optional leading '-' and then nothing but digits; "" and "-" pass. */
  predicate IsNumber(s: string) {
    var start := if |s| > 0 && s[0] == '-' then 1 else 0;
    forall i :: start <= i < |s| ==> IsDigit(s[i])
  }

  /** Every unsigned or negative number parseInt accepts passes isNumber, and so does every toString. */
  lemma IsNumberSpec(s: string, n: int)
    ensures ParseInt32(s).Some? && s[0] != '+' ==> IsNumber(s)
    ensures IsNumber(IntToString(n))
  {
    if ParseInt32(s).Some? && s[0] != '+' {
      var digits := if s[0] == '-' then s[1..] else s;
      assert forall i :: (if s[0] == '-' then 1 else 0) <= i < |s| ==>
        s[i] == digits[i - (if s[0] == '-' then 1 else 0)];
    }
    var t := IntToString(n);
    if n < 0 {
      assert forall i :: 1 <= i < |t| ==> t[i] == NatToString(-n)[i - 1];
    }
  }

  // ---------------------------------------------------------------------------
  // One square per line.

  /** getGameAsString's line for a square: its number, then 'f' if flagged, else 'r' if revealed. */
  function CellLine(s: Square): (line: string)
    ensures '\n' !in line
  {
    IntToString(s.number) + (if s.isFlagged then "f" else if s.isRevealed then "r" else "")
  }

  /**
   * The number and the (revealed, flagged) marks loadGame reads off a non-empty
   * line: a number line as a whole; any other line must contain 'r' or 'f', a
   * leading '-' means -1 and skips two characters, otherwise the number is the
   * first character alone; the marks are looked for in the rest, and both at
   * once are refused.
   */
  function CellFields(line: string): Option<(int, bool, bool)>
    requires |line| > 0
  {
    if IsNumber(line) then
      match ParseInt32(line)
      case None => None
      case Some(n) => Some((n, false, false))
    else if 'r' !in line && 'f' !in line then None
    else
      var head := if line[0] == '-' then Some(-1) else ParseInt32([line[0]]);
      var rest := if line[0] == '-' then line[2..] else line[1..];
      if head.None? || ('r' in rest && 'f' in rest) then None
      else Some((head.value, 'r' in rest, 'f' in rest))
  }

  /**
   * A save line to a square: the empty line (which leaves the square unset and
   * aborts the load), a bad number, a number the Square constructor refuses,
   * both marks, or a revealed mine, all reject.
   */
  function ParseCell(line: string): (r: Option<Square>)
    ensures r.Some? ==> ValidNumber(r.value.number) && !(r.value.isFlagged && r.value.isRevealed) &&
                        !(r.value.IsBomb() && r.value.isRevealed)
  {
    if |line| == 0 then None
    else
      match CellFields(line)
      case None => None
      case Some((n, revealed, flagged)) =>
        match NewSquare(n)
        case None => None
        case Some(s) =>
          var t := s.SetIsFlagged(flagged);
          if !revealed then Some(t)
          else
            match t.Reveal()
            case BombException => None
            case RevealedSquare(u) => Some(u)
  }

  lemma DigitsValueSingle(ch: char)
    requires IsDigit(ch)
    ensures DigitsValue([ch]) == DigitValue(ch)
  {
    assert [ch][..0] == [];
  }

  /** Every square the game can save reads back as itself. */
  lemma CellLineRoundTrip(s: Square)
    requires ValidNumber(s.number) && !(s.isFlagged && s.isRevealed) && !(s.IsBomb() && s.isRevealed)
    ensures ParseCell(CellLine(s)) == Some(s)
  {
    var line := CellLine(s);
    if s.number == -1 {
      assert IntToString(-1) == "-1";
      if s.isFlagged {
        assert line == "-1f" && !IsDigit(line[2]);
        assert line[2..] == "f";
      } else {
        assert line == "-1" && IsNumber(line);
        assert line[1..] == "1";
        DigitsValueSingle('1');
      }
    } else {
      assert IntToString(s.number) == [DigitChar(s.number)];
      var ch := DigitChar(s.number);
      DigitsValueSingle(ch);
      assert ParseInt32([ch]) == Some(s.number);
      if s.isFlagged || s.isRevealed {
        var mark := if s.isFlagged then 'f' else 'r';
        assert line == [ch, mark] && !IsDigit(line[1]);
        assert line[1..] == [mark];
      } else {
        assert line == [ch] && IsNumber(line);
      }
    }
  }

  /** Quirks of the cell parser: extra characters after the first are ignored, and "-r" is a hidden mine. */
  lemma CellParserQuirks()
    ensures ParseCell("12r") == Some(Square(1, true, false))
    ensures ParseCell("-r") == Some(Square(-1, false, false))
  {
    assert !IsDigit("12r"[2]) && "12r"[1..] == "2r";
    assert ['1'] == "1" && ParseInt32("1") == Some(1);
    assert CellFields("12r") == Some((1, true, false));
    assert !IsDigit("-r"[1]) && "-r"[2..] == "";
    assert CellFields("-r") == Some((-1, false, false));
  }

  /** Lines the cell parser rejects: a revealed mine, both marks, a number out of range, no number. */
  lemma CellParserRejects()
    ensures ParseCell("-1r") == None && ParseCell("3rf") == None && ParseCell("9") == None
    ensures ParseCell("") == None && ParseCell("-") == None && ParseCell("x") == None
  {
    assert !IsDigit("-1r"[2]) && "-1r"[2..] == "r";
    assert !IsDigit("3rf"[1]) && "3rf"[1..] == "rf";
    assert IsNumber("9") && ParseInt32("9") == Some(9);
    assert IsNumber("-") && "-"[1..] == "";
    assert !IsDigit("x"[0]);
  }

  /** The squares of all lines, or None as soon as one of them rejects. */
  function ParseCells(lines: seq<string>): (r: Option<seq<Square>>)
    ensures r.Some? <==> forall n :: 0 <= n < |lines| ==> ParseCell(lines[n]).Some?
    ensures r.Some? ==> |r.value| == |lines| && forall n :: 0 <= n < |lines| ==> ParseCell(lines[n]) == Some(r.value[n])
  {
    if |lines| == 0 then Some([])
    else
      match ParseCell(lines[0])
      case None => None
      case Some(s) =>
        match ParseCells(lines[1..])
        case None =>
          assert forall n :: 1 <= n < |lines| ==> lines[n] == lines[1..][n - 1];
          None
        case Some(rest) => Some([s] + rest)
  }

  /** Square (r, c) of a row-major list of rows * cols squares. */
  function CellAt(cells: seq<Square>, rows: nat, cols: nat, r: int, c: int): Square
    requires |cells| == rows * cols && 0 <= r < rows && 0 <= c < cols
  {
    cells[FlatIndex(r, c, rows, cols)]
  }

  /** The field loadGame fills: square n of the list goes to (n / cols, n % cols). */
  function Reshape(cells: seq<Square>, rows: nat, cols: nat): (g: Grid)
    requires |cells| == rows * cols
    ensures IsGrid(g, rows, cols)
    ensures forall r, c :: 0 <= r < rows && 0 <= c < cols ==> g[r][c] == CellAt(cells, rows, cols, r, c)
  {
    seq(rows, r requires 0 <= r < rows => seq(cols, c requires 0 <= c < cols => CellAt(cells, rows, cols, r, c)))
  }

  // ---------------------------------------------------------------------------
  // The decoder.

  datatype Loaded = Loaded(rows: int, cols: int, bombs: int, grid: Grid)

  /** What an accepted file yields: its header, a valid consistent field, and each square read off its line. */
  ghost predicate LoadedFrom(l: Loaded, lines: seq<string>) {
    l.rows > 0 && l.cols > 0 && 0 < l.bombs < l.rows * l.cols && 3 + l.rows * l.cols <= MaxInt32 &&
    |lines| == 3 + l.rows * l.cols &&
    ParseInt32(lines[0]) == Some(l.rows) && ParseInt32(lines[1]) == Some(l.cols) &&
    ParseInt32(lines[2]) == Some(l.bombs) &&
    IsGrid(l.grid, l.rows, l.cols) && ValidNumbers(l.grid) && Consistent(l.grid) &&
    NoRevealedMine(l.grid) && NoFlaggedRevealed(l.grid) &&
    forall i, j :: 0 <= i < l.rows && 0 <= j < l.cols ==> ParseCell(lines[3 + FlatIndex(i, j, l.rows, l.cols)]) == Some(l.grid[i][j])
  }

  /**
   * The parsing and validation half of loadGame. The header needs three ints
   * with rows, cols, bombs > 0 and bombs < rows * cols; the file needs exactly
   * 3 + rows * cols lines (both products in Java int arithmetic; a product
   * beyond the int range leaves squares unset and aborts the load); every
   * square line must parse; every non-mine must show its neighbouring mines.
   * The number of mines is not compared with the header.
   */
  function Decode(lines: seq<string>): (r: Option<Loaded>)
    ensures r.Some? ==> LoadedFrom(r.value, lines)
  {
    if |lines| < 3 then None
    else
      var rows, cols, bombs := ParseInt32(lines[0]), ParseInt32(lines[1]), ParseInt32(lines[2]);
      if rows.None? || cols.None? || bombs.None? then None
      else DecodeField(lines, rows.value, cols.value, bombs.value)
  }

  /** The header checks of loadGame, in Java int arithmetic, then the squares. */
  function DecodeField(lines: seq<string>, rows: int, cols: int, bombs: int): (r: Option<Loaded>)
    requires |lines| >= 3 && ParseInt32(lines[0]) == Some(rows) && ParseInt32(lines[1]) == Some(cols)
    requires ParseInt32(lines[2]) == Some(bombs)
    ensures r.Some? ==> LoadedFrom(r.value, lines) && r.value.rows == rows && r.value.cols == cols && r.value.bombs == bombs
  {
    if rows <= 0 || cols <= 0 || bombs <= 0 || bombs >= Wrap32(cols * rows) then None
    else if |lines| != Wrap32(3 + Wrap32(cols * rows)) then None
    else if cols * rows > MaxInt32 then None
    else DecodeSquares(lines, rows, cols, bombs)
  }

  /** The square lines, then the neighbour-count check; a mismatch rejects. */
  function DecodeSquares(lines: seq<string>, rows: nat, cols: nat, bombs: int): (r: Option<Loaded>)
    requires rows > 0 && cols > 0 && |lines| == 3 + rows * cols
    ensures r.Some? ==> r.value.rows == rows && r.value.cols == cols && r.value.bombs == bombs
    ensures r.Some? ==> IsGrid(r.value.grid, rows, cols) && ValidNumbers(r.value.grid) && Consistent(r.value.grid)
    ensures r.Some? ==> NoRevealedMine(r.value.grid) && NoFlaggedRevealed(r.value.grid)
    ensures r.Some? ==> forall i, j :: 0 <= i < rows && 0 <= j < cols ==>
                          ParseCell(lines[3 + FlatIndex(i, j, rows, cols)]) == Some(r.value.grid[i][j])
  {
    match ParseCells(lines[3..])
    case None => None
    case Some(cells) =>
      var g := Reshape(cells, rows, cols);
      if !Consistent(g) then None
      else
        ReshapeFromLines(lines, cells, rows, cols);
        Some(Loaded(rows, cols, bombs, g))
  }

  lemma ReshapeFromLines(lines: seq<string>, cells: seq<Square>, rows: nat, cols: nat)
    requires |lines| == 3 + rows * cols && ParseCells(lines[3..]) == Some(cells)
    ensures var g := Reshape(cells, rows, cols);
      ValidNumbers(g) && NoRevealedMine(g) && NoFlaggedRevealed(g) &&
      forall i, j :: 0 <= i < rows && 0 <= j < cols ==> ParseCell(lines[3 + FlatIndex(i, j, rows, cols)]) == Some(g[i][j])
  {
    var g := Reshape(cells, rows, cols);
    forall i, j | 0 <= i < rows && 0 <= j < cols
      ensures ParseCell(lines[3 + FlatIndex(i, j, rows, cols)]) == Some(g[i][j])
    {
      var n := FlatIndex(i, j, rows, cols);
      assert lines[3 + n] == lines[3..][n];
    }
  }

  // ---------------------------------------------------------------------------
  // The encoder and the text.

  /** The squares of a field in row-major order: square n is (n / cols, n % cols). */
  function Flatten(g: Grid, rows: int, cols: int): (cells: seq<Square>)
    requires rows > 0 && cols > 0 && IsGrid(g, rows, cols)
    ensures |cells| == rows * cols
  {
    seq(rows * cols, n requires 0 <= n < rows * cols => FlatIndexBounds(n, rows, cols); g[n / cols][n % cols])
  }

  /** Reading the row-major list back into a field gives the field. */
  lemma ReshapeFlatten(g: Grid, rows: int, cols: int)
    requires rows > 0 && cols > 0 && IsGrid(g, rows, cols)
    ensures Reshape(Flatten(g, rows, cols), rows, cols) == g
  {
    var cells := Flatten(g, rows, cols);
    var h := Reshape(cells, rows, cols);
    forall r, c | 0 <= r < rows && 0 <= c < cols
      ensures h[r][c] == g[r][c]
    {
      var n := FlatIndex(r, c, rows, cols);
      assert h[r][c] == cells[n];
    }
    GridExt(h, g);
  }

  function CellLines(cells: seq<Square>): (lines: seq<string>)
    ensures |lines| == |cells| && forall n :: 0 <= n < |lines| ==> '\n' !in lines[n]
  {
    seq(|cells|, n requires 0 <= n < |cells| => CellLine(cells[n]))
  }

  /** getGameAsString, line by line: rows, cols, bombs, then the squares in row-major order. */
  function EncodeLines(rows: int, cols: int, bombs: int, g: Grid): (lines: seq<string>)
    requires rows > 0 && cols > 0 && IsGrid(g, rows, cols)
    ensures |lines| == 3 + rows * cols
    ensures forall n :: 0 <= n < |lines| ==> '\n' !in lines[n]
  {
    [IntToString(rows), IntToString(cols), IntToString(bombs)] + CellLines(Flatten(g, rows, cols))
  }

  /** Each line followed by '\n'. */
  function JoinLines(lines: seq<string>): string {
    if |lines| == 0 then "" else lines[0] + "\n" + JoinLines(lines[1..])
  }

  lemma {:induction false} JoinLinesSnoc(lines: seq<string>, line: string)
    ensures JoinLines(lines + [line]) == JoinLines(lines) + line + "\n"
  {
    if |lines| > 0 {
      assert (lines + [line])[1..] == lines[1..] + [line];
      JoinLinesSnoc(lines[1..], line);
    } else {
      assert [line][1..] == [];
    }
  }

  /** The end of the line starting at or before i: the next '\n' from i on, or the end of s. */
  function LineEnd(s: string, i: nat): (k: nat)
    requires i <= |s|
    decreases |s| - i
    ensures i <= k <= |s| && (k < |s| ==> s[k] == '\n')
    ensures forall j :: i <= j < k ==> s[j] != '\n'
  {
    if i == |s| || s[i] == '\n' then i else LineEnd(s, i + 1)
  }

  /** Reading a text as lines ended by '\n'; a last line without its '\n' still counts. */
  function SplitLines(s: string): seq<string>
    decreases |s|
  {
    if |s| == 0 then []
    else
      var k := LineEnd(s, 0);
      if k == |s| then [s] else [s[..k]] + SplitLines(s[k + 1..])
  }

  /** Reading back joined lines gives the lines, as long as none of them holds a '\n'. */
  lemma {:induction false} SplitJoinLines(lines: seq<string>)
    requires forall n :: 0 <= n < |lines| ==> '\n' !in lines[n]
    ensures SplitLines(JoinLines(lines)) == lines
  {
    if |lines| > 0 {
      var l := lines[0];
      var rest := JoinLines(lines[1..]);
      var s := JoinLines(lines);
      assert s == l + "\n" + rest;
      assert s[|l|] == '\n';
      assert forall j :: 0 <= j < |l| ==> s[j] == l[j];
      var k := LineEnd(s, 0);
      assert k == |l|;
      assert s[..k] == l && s[k + 1..] == rest;
      SplitJoinLines(lines[1..]);
      assert lines == [l] + lines[1..];
    }
  }

  /** The text getGameAsString produces for a session. */
  function GameAsString(st: GameState): string
    requires st.numRows > 0 && st.numCols > 0 && IsGrid(st.grid, st.numRows, st.numCols)
  {
    JoinLines(EncodeLines(st.numRows, st.numCols, st.numBombs, st.grid))
  }

  /** saveGame writes nothing once the game is over. */
  function SaveText(st: GameState): (r: Option<string>)
    requires st.numRows > 0 && st.numCols > 0 && IsGrid(st.grid, st.numRows, st.numCols)
    ensures r.Some? <==> !st.gameOver
  {
    if st.gameOver then None else Some(GameAsString(st))
  }

  /**
   * Decoding the encoding of a field that is consistent, has no flagged
   * revealed square and no revealed mine, 0 < bombs < rows * cols, and whose
   * line count fits an int, gives back the header and every square.
   */
  lemma DecodeEncode(rows: int, cols: int, bombs: int, g: Grid)
    requires rows > 0 && cols > 0 && 0 < bombs < rows * cols && 3 + rows * cols <= MaxInt32
    requires IsGrid(g, rows, cols) && ValidNumbers(g) && Consistent(g) && NoRevealedMine(g) && NoFlaggedRevealed(g)
    ensures Decode(EncodeLines(rows, cols, bombs, g)) == Some(Loaded(rows, cols, bombs, g))
  {
    var lines := EncodeLines(rows, cols, bombs, g);
    MulLe(1, cols, rows);
    MulLe(1, rows, cols);
    ParseIntToString(rows);
    ParseIntToString(cols);
    ParseIntToString(bombs);
    assert Wrap32(cols * rows) == rows * cols;
    assert Wrap32(3 + Wrap32(cols * rows)) == |lines|;
    SquaresRoundTrip(rows, cols, bombs, g);
  }

  /** A square the save format can carry: valid, not flagged and revealed, not a revealed mine. */
  predicate Saveable(s: Square) {
    ValidNumber(s.number) && !(s.isFlagged && s.isRevealed) && !(s.IsBomb() && s.isRevealed)
  }

  lemma ParseCellLines(cells: seq<Square>)
    requires forall n :: 0 <= n < |cells| ==> Saveable(cells[n])
    ensures ParseCells(CellLines(cells)) == Some(cells)
  {
    var lines := CellLines(cells);
    forall n | 0 <= n < |cells|
      ensures ParseCell(lines[n]) == Some(cells[n])
    {
      CellLineRoundTrip(cells[n]);
    }
    assert ParseCells(lines).value == cells;
  }

  lemma SquaresRoundTrip(rows: int, cols: int, bombs: int, g: Grid)
    requires rows > 0 && cols > 0
    requires IsGrid(g, rows, cols) && ValidNumbers(g) && Consistent(g) && NoRevealedMine(g) && NoFlaggedRevealed(g)
    ensures DecodeSquares(EncodeLines(rows, cols, bombs, g), rows, cols, bombs) == Some(Loaded(rows, cols, bombs, g))
  {
    var lines := EncodeLines(rows, cols, bombs, g);
    var cells := Flatten(g, rows, cols);
    forall n | 0 <= n < |cells|
      ensures Saveable(cells[n])
    {
      FlatIndexBounds(n, rows, cols);
    }
    ParseCellLines(cells);
    assert lines[3..] == CellLines(cells);
    ReshapeFlatten(g, rows, cols);
  }

  // ---------------------------------------------------------------------------
  // loadGame on the session.

  /**
   * loadGame: a rejected file changes nothing; an accepted one replaces the
   * field and its dimensions, clears firstClick, the "X" and both game-over
   * flags, and leaves numFlags as it was.
   */
  function LoadGame(st: GameState, lines: seq<string>): GameState {
    match Decode(lines)
    case None => st
    case Some(l) =>
      st.(grid := l.grid, numRows := l.rows, numCols := l.cols, numBombs := l.bombs,
          firstClick := false, safeStart := None, gameOver := false, wonGame := false)
  }

  /** A loaded session is well formed, consistent and without flagged revealed squares. */
  lemma LoadGameSpec(st: GameState, lines: seq<string>)
    ensures Decode(lines).None? ==> LoadGame(st, lines) == st
    ensures Decode(lines).Some? ==>
              var r := LoadGame(st, lines);
              WellFormed(r) && Consistent(r.grid) && NoFlaggedRevealed(r.grid) &&
              0 < r.numBombs < r.numRows * r.numCols &&
              !r.gameOver && !r.wonGame && !r.firstClick && !r.HasX() && r.numFlags == st.numFlags
  {
  }

  /**
   * Saving a game that is not over and loading the text back, into any
   * session, restores the field and the dimensions.
   */
  lemma SaveLoadRoundTrip(st: GameState, other: GameState)
    requires WellFormed(st) && !st.gameOver && Consistent(st.grid) && NoFlaggedRevealed(st.grid)
    requires 0 < st.numBombs < st.numRows * st.numCols && 3 + st.numRows * st.numCols <= MaxInt32
    ensures SaveText(st).Some?
    ensures var r := LoadGame(other, SplitLines(SaveText(st).value));
      r.grid == st.grid && r.numRows == st.numRows && r.numCols == st.numCols && r.numBombs == st.numBombs &&
      !r.gameOver && !r.firstClick && r.numFlags == other.numFlags
  {
    var lines := EncodeLines(st.numRows, st.numCols, st.numBombs, st.grid);
    SplitJoinLines(lines);
    DecodeEncode(st.numRows, st.numCols, st.numBombs, st.grid);
  }

  /**
   * numFlags survives a load: loading a saved field whose flags number anything
   * other than the session's numFlags leaves numFlags miscounting them.
   */
  lemma LoadKeepsFlagCount(st: GameState, rows: int, cols: int, bombs: int, g: Grid)
    requires rows > 0 && cols > 0 && 0 < bombs < rows * cols && 3 + rows * cols <= MaxInt32
    requires IsGrid(g, rows, cols) && ValidNumbers(g) && Consistent(g) && NoRevealedMine(g) && NoFlaggedRevealed(g)
    requires Count(g, Flagged) != st.numFlags
    ensures var r := LoadGame(st, EncodeLines(rows, cols, bombs, g));
      r.grid == g && r.numFlags == st.numFlags && !FlagsTracked(r)
  {
    DecodeEncode(rows, cols, bombs, g);
  }
}
