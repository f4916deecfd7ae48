# Minesweeper engine, modelled in Dafny

This project models the game engine inside the Swing Minesweeper program: the
cell class `Square` and the board logic of `Board` (mine placement, numbering,
the safe-start "X", square clicks with the zero flood fill and the chord,
the flag toggle, the loss display, the win count, and the save-file encoder
and decoder).

The model has two layers:

- **The session as a value.** Modules `Squares`, `Grids`, `Generation`,
  `FloodFill`, `Session` and `SaveCodec` describe a `GameState` with these parts:
  - the field as rows of squares;
  - `numRows`, `numCols`, `numBombs`, `numFlags`;
  - `gameOver`, `wonGame`, `firstClick`;
  - where the "X" is, if any.

  Every operation of the board is a function from state to state.
  `SessionProperties` and the lemmas next to the functions prove what the
  game promises.
- **The board as an object.** Module `Engine` has a class `Board` holding the
  same fields and a `squares: array2<Square>` array. Its methods keep Java's
  loops, and each method is proved to leave the object in the state the
  value-level function gives: `State() == Click(old(State()), i, j)`, and so
  on.

`Square` becomes a datatype: the number plus the two marks. `reveal()` returns
either `BombException` or the revealed square. The board array stores these
values, so updating a square in place becomes replacing an array element.

Files:

| file | module | contents |
|---|---|---|
| wrappers.dfy | Wrappers | `Option` |
| squares.dfy | Squares | `Square`, `reveal`, `setIsFlagged`, the constructor's range check |
| grids.dfy | Grids | fields, neighbourhood order, neighbour mine counts, counting squares by kind |
| generation.dfy | Generation | mine sampling, the generated field, the "X" on the first zero |
| floodfill.dfy | FloodFill | `revealZeros` as passes to a fixed point |
| session.dfy | Session | the session state and its transitions |
| session_props.dfy | SessionProperties | click gating, reveal, loss, chord, win, flag toggle, preserved invariants |
| codec.dfy | SaveCodec | `getGameAsString`, the `loadGame` decoder, `isNumber`, the round trip |
| engine.dfy | Engine | the `Board` class and its loops |

Behaviour reproduced as the code has it:

- **The chord** fires when the number minus the flagged neighbours is `<= 0`. It
  stops at the first mine it hits and loses the game.
- **The loss display** reveals flagged non-mines too. So "never flagged and
  revealed" holds only while the game is not lost
  (`SessionProperties.LossRevealsFlaggedSquare` shows a concrete case).
- **The decoder quirks** are reproduced exactly:
  - `[line[0]]` as the number of a non-number line;
  - a leading `-` skipping two characters;
  - both marks refused;
  - a revealed mine refused;
  - an empty line aborting the load;
  - no check of the mine count against the header;
  - the header products computed in 32-bit wrap-around arithmetic.
- **`numFlags` after a load.** Loading does not reset it, so after a load it
  may no longer count the flagged squares (`SaveCodec.LoadKeepsFlagCount`).

## Model

| member | source | states |
|---|---|---|
| Squares.Square.Reveal | src/main/java/gui/Square.java:32-37 | a mine (number -1) refuses with BombException; any other square comes back revealed, with its number and flag unchanged |
| Squares.Square.SetIsFlagged | src/main/java/gui/Square.java:75-77 | the flag becomes exactly b; the number and the revealed mark are untouched whatever they are |
| Squares.NewSquare | src/main/java/gui/Square.java:17-26 | the constructor accepts exactly the numbers -1 and 0..8; a new square is neither revealed nor flagged |
| Squares.RevealIdempotent | src/main/java/gui/Square.java:32-37 | revealing an already revealed square gives it back unchanged |
| Squares.SetIsFlaggedRestores | src/main/java/gui/Square.java:75-77 | setting the flag back to its old value restores the square |
| Grids.MinesAmong | src/main/java/gui/Board.java:324-344 | the mines among the first k in-bounds neighbourhood positions number at most k |
| Grids.MinesAmongZero | src/main/java/gui/Board.java:324-344 | the count is zero exactly when no in-bounds position among the first k holds a mine |
| Grids.MinesAmongAtMostEight | src/main/java/gui/Board.java:324-346 | a non-mine's count never exceeds 8, so `new Square(count)` cannot throw |
| Grids.NeighborSymmetric | src/main/java/gui/Board.java:535-539 | position k of (r, c) has (r, c) as its position 8 - k: the neighbourhood relation is symmetric |
| Generation.Dedup | src/main/java/gui/Board.java:287-304 | the kept draws are exactly the distinct points drawn, without repeats |
| Generation.DedupPrefix | src/main/java/gui/Board.java:287-304 | the points kept from a prefix of the draws are a prefix of those kept from all of them, so sampling can stop after numBombs |
| Generation.MinesAmongFromList | src/main/java/gui/Board.java:324-344 | counting mines on a field whose mines are the listed points equals counting the listed points around the square |
| Generation.GeneratedConsistent | src/main/java/gui/Board.java:314-355 | the generated field has mines exactly at the kept points, every non-mine shows its neighbouring mine count (at most 8), nothing is revealed or flagged |
| Generation.MaskGridSnoc | src/main/java/gui/Board.java:306-311 | placing one more mine changes that square alone |
| Generation.MaskGridMineCount | src/main/java/gui/Board.java:306-311 | n distinct in-range positions give exactly n mines |
| Generation.GeneratedMineCount | src/main/java/gui/Board.java:287-355 | the generated field has exactly as many mines as distinct positions were kept |
| Generation.FirstZeroFrom | src/main/java/gui/Board.java:349-354 | the result is a zero at or after (r, c), and no zero lies between (r, c) and it |
| Generation.FirstZeroSpec | src/main/java/gui/Board.java:349-354 | the "X" exists exactly when the field has a zero, and it marks the first zero in row-major order |
| FloodFill.StepSpec | src/main/java/gui/Board.java:541-558 | square (i, j) alone is revealed, all else unchanged, exactly when it is an unflagged, unrevealed non-mine next to a revealed zero; otherwise nothing changes |
| FloodFill.PassFromSpec | src/main/java/gui/Board.java:529-560 | a pass only reveals unflagged non-mines; it either lowers the number of hidden squares or leaves the field as it was, with no square left that it should reveal |
| FloodFill.RevealsOnlyStrict | src/main/java/gui/Board.java:528-560 | once a pass has revealed a square, later reveals cannot bring the field back to what it was |
| FloodFill.PassChanges | src/main/java/gui/Board.java:562-564 | a pass reveals nothing exactly when no square should be revealed: the loop's exit test is the fixed point |
| FloodFill.ClosedPassFrom | src/main/java/gui/Board.java:529-560 | on a field with nothing to reveal, a pass changes nothing |
| FloodFill.FillSpec | src/main/java/gui/Board.java:525-566 | the flood fill terminates, never un-reveals, never reveals a mine or a flagged square, and ends at its fixed point |
| FloodFill.FillIdempotent | src/main/java/gui/Board.java:525-566 | filling a filled field changes nothing |
| FloodFill.RevealsOnlyConsistent | src/main/java/gui/Board.java:525-566 | revealing squares keeps the field consistent and keeps mines hidden and flags off revealed squares |
| FloodFill.FillRevealsAroundZeros | src/main/java/gui/Board.java:525-566 | on a consistent field, after the fill every unflagged neighbour of a revealed zero is revealed |
| Session.NewGameSpec | src/main/java/gui/Board.java:568-581 | a new game is well formed and consistent, with numBombs mines, no flags (numFlags 0), nothing revealed, firstClick set, not over, and the "X" on the first zero exactly when there is one |
| Session.InitialSpec | src/main/java/gui/Board.java:78-81 | the constructor refuses exactly rows <= 0, cols <= 0, bombs < 0 or bombs > rows * cols; otherwise it yields a new game |
| SessionProperties.RevealSafeSpec | src/main/java/gui/Board.java:436-458 | the loss display reveals every non-mine, flagged or not, and leaves every mine as it was |
| SessionProperties.ChordRevealsOnly | src/main/java/gui/Board.java:1331-1346 | the chord only reveals unflagged non-mines |
| SessionProperties.ChordHit | src/main/java/gui/Board.java:1331-1346 | the chord reports a hit exactly when some unflagged in-bounds neighbour is a mine |
| SessionProperties.ChordCovers | src/main/java/gui/Board.java:1331-1346 | a chord without a hit reveals every unflagged in-bounds neighbour |
| SessionProperties.ChordSpec | src/main/java/gui/Board.java:1331-1346 | the three chord facts together, from the first neighbour |
| SessionProperties.WinCheckSpec | src/main/java/gui/Board.java:1354-1364 | the win test ends the game as won exactly when the revealed squares number rows * cols - numBombs, and changes nothing else |
| SessionProperties.AfterRevealOutcome | src/main/java/gui/Board.java:1292-1364 | after the clicked square, the click only uncovers non-mines and either loses or only reveals unflagged non-mines and then applies the win test |
| SessionProperties.ClickOutcome | src/main/java/gui/Board.java:1272-1365 | an ignored click changes nothing; an accepted one clears firstClick, keeps the settings, and either loses or reveals only unflagged non-mines and then applies the win test |
| SessionProperties.ClickGating | src/main/java/gui/Board.java:1272-1280 | clicks are ignored once the game is over; while firstClick and the "X" exist only the "X" is accepted; an accepted click clears firstClick |
| SessionProperties.ClickLoss | src/main/java/gui/Board.java:1281-1289 | clicking an unflagged hidden mine loses and shows every non-mine, leaving every mine unrevealed |
| SessionProperties.ClickReveals | src/main/java/gui/Board.java:1281-1289 | clicking an unflagged hidden non-mine reveals it and never loses |
| SessionProperties.ClickFlagged | src/main/java/gui/Board.java:1281-1289 | clicking a flagged hidden square leaves the field as it was |
| SessionProperties.ClickChord | src/main/java/gui/Board.java:1294-1349 | on a revealed non-zero square whose flags account for its number, an unflagged neighbouring mine loses, showing every non-mine and leaving every mine as it was; otherwise every unflagged neighbour ends revealed and the win test applies |
| SessionProperties.ClickWin | src/main/java/gui/Board.java:1354-1364 | after a click that does not lose, the game is over, and won, exactly on the win count |
| SessionProperties.WinMeansAllSafeRevealed | src/main/java/gui/Board.java:1354-1364 | with numBombs mines and no revealed mine, the win count holds exactly when every non-mine is revealed |
| SessionProperties.ClickPreserves | src/main/java/gui/Board.java:1272-1365 | every click keeps the session well formed, the mine count, consistency, numFlags as the flag count within 0..numBombs, and flags off revealed squares unless it loses |
| SessionProperties.LossRevealsFlaggedSquare | src/main/java/gui/Board.java:444-455 | a flagged non-mine is revealed by the loss display, so flags can sit on revealed squares once the game is lost |
| SessionProperties.ToggleFlagSpec | src/main/java/gui/Board.java:379-395 | the toggle unflags a flagged square (numFlags - 1), flags an unflagged one while numFlags < numBombs (numFlags + 1), else changes nothing; it touches no other square, and keeps the dimensions, numBombs, the "X" and the game flags |
| SessionProperties.ToggleFlagPreserves | src/main/java/gui/Board.java:379-395 | on a hidden square the toggle keeps the session well formed, numFlags the flag count within 0..numBombs, the field consistent and flags off revealed squares |
| SessionProperties.MouseClickedSpec | src/main/java/gui/Board.java:376-400 | the mouse handler ignores a finished game and left clicks, toggles the flag on a right click on a hidden square, and acts as a square click for any other non-left click on a revealed square |
| SessionProperties.MouseClickedPreserves | src/main/java/gui/Board.java:376-400 | the mouse handler keeps the session invariants, and flags off revealed squares unless it loses |
| SaveCodec.Wrap32 | src/main/java/gui/Board.java:860-865 | Java int arithmetic: the result is in the int range, congruent to the input modulo 2^32, and the input itself when in range |
| SaveCodec.ParseInt32 | src/main/java/gui/Board.java:856-858 | Integer.parseInt accepts only values in the int range |
| SaveCodec.NatToStringValue | src/main/java/gui/Board.java:613-619 | the decimal digits written for n read back as n |
| SaveCodec.ParseIntToString | src/main/java/gui/Board.java:856-858 | parseInt reads back every int that toString writes |
| SaveCodec.IsNumberSpec | src/main/java/gui/Board.java:1095-1109 | every unsigned or negative number parseInt accepts, and every written int, passes isNumber |
| SaveCodec.ParseCell | src/main/java/gui/Board.java:871-911 | an accepted square line gives a number in -1..8, never both marks, never a revealed mine |
| SaveCodec.CellLineRoundTrip | src/main/java/gui/Board.java:619-626 | the line written for a valid, not flagged-and-revealed, not revealed-mine square parses back to that square |
| SaveCodec.CellParserQuirks | src/main/java/gui/Board.java:881-893 | "12r" reads as a revealed 1 (characters after the first are ignored), and "-r" as a hidden mine (the marks are looked for two characters on) |
| SaveCodec.CellParserRejects | src/main/java/gui/Board.java:872-907 | "-1r" (a revealed mine), "3rf" (both marks), "9" (out of range), "" (empty line), "-" and "x" are rejected |
| SaveCodec.ParseCells | src/main/java/gui/Board.java:870-912 | the square lines parse exactly when each does, square n from line n |
| SaveCodec.Decode | src/main/java/gui/Board.java:848-967 | an accepted file has three int header lines with rows, cols, bombs > 0, bombs < rows * cols and exactly 3 + rows * cols lines; its field is valid and consistent, and each square is the one its own line gives |
| SaveCodec.DecodeField | src/main/java/gui/Board.java:860-867 | the header checks in int arithmetic; an accepted file keeps the header's numbers |
| SaveCodec.DecodeSquares | src/main/java/gui/Board.java:869-967 | an accepted field is rows by cols, valid, consistent, with no revealed mine and no flagged revealed square, square (i, j) read off line 3 + i * cols + j |
| SaveCodec.ReshapeFlatten | src/main/java/gui/Board.java:614-618 | laying the row-major square list back out as rows gives the field back |
| SaveCodec.EncodeLines | src/main/java/gui/Board.java:613-626 | the encoding has 3 + rows * cols lines, none holding a line break |
| SaveCodec.SplitJoinLines | src/main/java/gui/Board.java:838 | reading the saved text back as lines gives the lines that were written |
| SaveCodec.SaveText | src/main/java/gui/Board.java:639-642 | a game is saved exactly when it is not over |
| SaveCodec.DecodeEncode | src/main/java/gui/Board.java:848-967 | decoding the encoding of a consistent field with no flagged revealed square, 0 < bombs < rows * cols and an int-sized line count gives back every square |
| SaveCodec.SquaresRoundTrip | src/main/java/gui/Board.java:869-967 | the square half of the decoder reads every encoded square back |
| SaveCodec.LoadGameSpec | src/main/java/gui/Board.java:978-990 | a rejected file leaves the session as it was; an accepted one gives a well formed, consistent session, not over, firstClick clear, no "X", numFlags unchanged |
| SaveCodec.SaveLoadRoundTrip | src/main/java/gui/Board.java:978-990 | saving an unfinished consistent game and loading the text into any session restores the field, dimensions and mine count |
| SaveCodec.LoadKeepsFlagCount | src/main/java/gui/Board.java:978-981 | loading a saved field whose flags number other than the session's numFlags installs the field but keeps numFlags, which then miscounts the flags |
| Engine.PlaceMines | src/main/java/gui/Board.java:287-304 | the sampling loop keeps exactly the first numBombs distinct draws |
| Engine.IsDuplicate | src/main/java/gui/Board.java:296-303 | the scan finds a duplicate exactly when the new draw equals an earlier kept position |
| Engine.LayMines | src/main/java/gui/Board.java:306-311 | a fresh rows-by-cols array with mines at the kept points and every other square unset |
| Engine.CountNeighborBombs | src/main/java/gui/Board.java:324-344 | the count is the number of in-bounds neighbourhood positions holding a mine |
| Engine.NumberSquare | src/main/java/gui/Board.java:320-355 | one step of the numbering loop: the squares up to (i, j) now hold their final values, and the result says whether (i, j) is a zero |
| Engine.NumberRow | src/main/java/gui/Board.java:315-355 | one row of the numbering loop: the squares through row i hold their final values, and the "X" is the first zero so far, if any |
| Engine.NumberSquares | src/main/java/gui/Board.java:314-355 | the array ends as the generated field, and the "X" lands on its first zero, if any |
| Engine.RevealAllSafe | src/main/java/gui/Board.java:436-458 | the array ends as the loss display of the field it held |
| Engine.RevealIfNextToZero | src/main/java/gui/Board.java:541-558 | the array ends as one flood-fill step at (i, j), and the result says whether that square should have been revealed |
| Engine.RevealRow | src/main/java/gui/Board.java:530-559 | one row of a pass: the rest of the pass from the next row gives the same field, only unflagged non-mines were revealed, and the result says whether the row changed |
| Engine.RevealPass | src/main/java/gui/Board.java:528-560 | the array ends as one full pass, and the result says whether the pass changed the field |
| Engine.SatisfiedCount | src/main/java/gui/Board.java:1297-1329 | num is the square's number minus its flagged in-bounds neighbours |
| Engine.RevealNeighbors | src/main/java/gui/Board.java:1331-1346 | the array and the hit flag end as the chord gives them |
| Engine.UnrevealedSafe | src/main/java/gui/Board.java:1354-1361 | numSquares is rows * cols - numBombs minus the revealed squares |
| Engine.ReadHeader | src/main/java/gui/Board.java:855-867 | a header it refuses makes the decoder reject; one it accepts has positive dimensions, the right line count, and leaves the decision to the square lines |
| Engine.ReadSquares | src/main/java/gui/Board.java:869-912 | the loop succeeds exactly when every square line parses, and then the array holds square n at (n / cols, n % cols) |
| Engine.CheckNeighbors | src/main/java/gui/Board.java:925-962 | the check passes exactly when every non-mine shows its neighbouring mine count |
| Engine.ReadField | src/main/java/gui/Board.java:869-962 | the square lines and the check accept exactly when the decoder does, with the same field |
| Engine.Board.constructor | src/main/java/gui/Board.java:78-85 | a board with valid dimensions starts as the new game the value model gives, well formed, consistent, no flags |
| Engine.Board.Create | src/main/java/gui/Board.java:78-81 | invalid dimensions give no board (IllegalArgumentException); valid ones give a fresh well-formed board in the initial state |
| Engine.Board.GenerateField | src/main/java/gui/Board.java:279-356 | the board ends with a fresh squares array holding the generated field and the "X" on its first zero |
| Engine.Board.NewGame | src/main/java/gui/Board.java:568-581 | the board ends in the new-game state, well formed, consistent, numFlags the flag count |
| Engine.Board.EndGame | src/main/java/gui/Board.java:430-459 | the game is over with the given outcome; a loss applies the loss display |
| Engine.Board.RevealZeros | src/main/java/gui/Board.java:525-566 | only the field changes, to its flood fill |
| Engine.Board.WinCheck | src/main/java/gui/Board.java:1354-1364 | the board ends as the win test leaves the session |
| Engine.Board.ClickSquare | src/main/java/gui/Board.java:1272-1280 | the board ends as the square click leaves the session, and stays valid |
| Engine.Board.RevealClicked | src/main/java/gui/Board.java:1279-1289 | the clicked square is revealed unless flagged or revealed; a mine loses |
| Engine.Board.FinishClick | src/main/java/gui/Board.java:1292-1364 | the flood fill, the chord and the win test, as the value model describes them |
| Engine.Board.MouseClicked | src/main/java/gui/Board.java:376-400 | the board ends as the mouse handler leaves the session, and stays valid |
| Engine.Board.ToggleFlag | src/main/java/gui/Board.java:379-395 | the board ends as the flag toggle leaves the session, on the same squares array |
| Engine.Board.GameAsString | src/main/java/gui/Board.java:583-629 | the text built is the header and square lines of the board, each ended by a line break |
| Engine.Board.SaveGame | src/main/java/gui/Board.java:632-642 | nothing is written once the game is over; otherwise the board's text |
| Engine.Board.LoadGame | src/main/java/gui/Board.java:848-990 | the board ends as the decoder's verdict leaves the session, and stays valid |
| Engine.Board.Install | src/main/java/gui/Board.java:978-990 | an accepted file replaces the field and its dimensions and clears firstClick, the "X" and both game-over flags |

## Left out

- Swing presentation is not modelled: buttons, icons, colours, fonts, menus, the board-size dialog, hover handlers, window disposal and labels. Only the engine state is modelled.
- Save-slot and file handling is not modelled: directories, slots, readers and writers, configuration. The model takes the file's lines and produces the saved text.
- Engine.LayMines: the squares Java leaves null between mine placement and numbering hold an unset non-mine `Square(0, false, false)` instead. In Java, reading a null neighbour while counting throws, is caught and counts as no mine; the placeholder is not a mine either, so the counts and the finished field are the same.
- Lines are split on '\n' only; `readAllLines` also ends lines at "\r" and "\r\n", which is not modelled.
- `java.util.Random` is replaced by a sequence of draws given as a parameter. The precondition that it holds at least numBombs distinct in-range points stands in for the sampling loop eventually finding them.
- `invokeLater` / `invokeAndWait` scheduling is not modelled; the deferred assignment of the new field after a load is one atomic step (`Engine.Board.Install`).
- The debug printing in `loadGame` is left out. Its crash on unset squares is modelled as a rejected load.
- The click handler finds the clicked square's position by searching the array for the square object. The model passes the position directly.
- Character classes: `Character.isDigit` in `isNumber`, and `Integer.parseInt` in the header and square parsing of `loadGame`, also accept non-ASCII decimal digits; the model accepts ASCII digits only.
- SaveCodec.EncodeLines: `getGameAsString` formats its three header numbers with `String.format`, which uses the default locale's digits. The model writes ASCII digits, as a locale whose zero digit is '0' does. The square lines are ASCII in every locale.
- Session.ValidDimensions: the constructor's `rows * cols` is computed in unbounded integers, not Java int arithmetic; so are the win count and `getGameAsString`'s `numRows * numCols` loop bound. The decoder's products do use 32-bit wrap-around (`SaveCodec.Wrap32`).
- A save header whose rows * cols exceeds the int range is rejected by the model. In Java such a file either fails to allocate or leaves squares unset and aborts. Either way the load does not happen.
- The flag toggle is modelled without its icon load. If that load throws, Java neither flags the square nor counts it; that failure path is not modelled.
