/**
 * The mine field as a value: rows of squares, the nine-position neighbourhood
 * in the order gui/Board.java lists it, neighbour-mine counts, and counts of
 * squares by kind.
 */
module Grids {
  import opened Squares

  type Grid = seq<seq<Square>>

  predicate IsGrid(g: Grid, rows: int, cols: int) {
    |g| == rows && forall r :: 0 <= r < |g| ==> |g[r]| == cols
  }

  predicate InBounds(g: Grid, r: int, c: int) {
    0 <= r < |g| && 0 <= c < |g[r]|
  }

  /** Every square's number is one the Square constructor accepts. */
  predicate ValidNumbers(g: Grid) {
    forall r, c :: 0 <= r < |g| && 0 <= c < |g[r]| ==> ValidNumber(g[r][c].number)
  }

  /** Replaces the square at (r, c). */
  function Update(g: Grid, r: int, c: int, s: Square): (h: Grid)
    requires InBounds(g, r, c)
    ensures |h| == |g| && forall i :: 0 <= i < |h| ==> |h[i]| == |g[i]|
    ensures h[r][c] == s
    ensures forall i, j :: InBounds(g, i, j) && (i != r || j != c) ==> h[i][j] == g[i][j]
  {
    g[r := g[r][c := s]]
  }

  /** Two grids of the same shape that agree on every square are equal. */
  lemma GridExt(g: Grid, h: Grid)
    requires |g| == |h| && forall i :: 0 <= i < |g| ==> |g[i]| == |h[i]|
    requires forall i, j :: InBounds(g, i, j) ==> g[i][j] == h[i][j]
    ensures g == h
  {
    forall i | 0 <= i < |g| ensures g[i] == h[i] {
      assert forall j :: 0 <= j < |g[i]| ==> g[i][j] == h[i][j];
    }
  }

  // ---------------------------------------------------------------------------
  // The neighbourhood: the nine points (i-1,j-1), (i-1,j), (i-1,j+1), (i,j-1),
  // (i,j), (i,j+1), (i+1,j-1), (i+1,j), (i+1,j+1), in that order. The square
  // itself is position 4.

  const RowOffset: seq<int> := [-1, -1, -1, 0, 0, 0, 1, 1, 1]
  const ColOffset: seq<int> := [-1, 0, 1, -1, 0, 1, -1, 0, 1]

  function NeighborRow(i: int, k: int): int
    requires 0 <= k < 9
  {
    i + RowOffset[k]
  }

  function NeighborCol(j: int, k: int): int
    requires 0 <= k < 9
  {
    j + ColOffset[k]
  }

  /** Neighbourhood position k of (i, j) is position 8 - k of that neighbour. */
  lemma NeighborSymmetric(i: int, j: int, k: int)
    requires 0 <= k < 9
    ensures NeighborRow(NeighborRow(i, k), 8 - k) == i
    ensures NeighborCol(NeighborCol(j, k), 8 - k) == j
  {
  }

  /** An in-bounds mine; positions off the grid are skipped, as the caught exceptions do. */
  predicate IsMineAt(g: Grid, r: int, c: int) {
    InBounds(g, r, c) && g[r][c].IsBomb()
  }

  /** Mines among the first k neighbourhood positions of (i, j). */
  function MinesAmong(g: Grid, i: int, j: int, k: nat): (n: nat)
    requires k <= 9
    ensures n <= k
  {
    if k == 0 then 0
    else MinesAmong(g, i, j, k - 1) + (if IsMineAt(g, NeighborRow(i, k - 1), NeighborCol(j, k - 1)) then 1 else 0)
  }

  function NeighborMines(g: Grid, i: int, j: int): nat {
    MinesAmong(g, i, j, 9)
  }

  /** No mine is counted among positions [0, k) exactly when none is there. */
  lemma {:induction false} MinesAmongZero(g: Grid, i: int, j: int, k: nat)
    requires k <= 9
    ensures MinesAmong(g, i, j, k) == 0 <==>
              forall m :: 0 <= m < k ==> !IsMineAt(g, NeighborRow(i, m), NeighborCol(j, m))
  {
    if k > 0 {
      MinesAmongZero(g, i, j, k - 1);
    }
  }

  /** A square that is not a mine is not counted among its own neighbours. */
  lemma {:induction false} MinesAmongAtMostEight(g: Grid, i: int, j: int, k: nat)
    requires k <= 9
    requires !IsMineAt(g, i, j)
    ensures MinesAmong(g, i, j, k) <= if k > 4 then k - 1 else k
  {
    if k > 0 {
      MinesAmongAtMostEight(g, i, j, k - 1);
    }
  }

  /** The structural invariant: every non-mine shows the number of mines around it. */
  predicate Consistent(g: Grid) {
    forall r, c :: 0 <= r < |g| && 0 <= c < |g[r]| && !g[r][c].IsBomb() ==> g[r][c].number == NeighborMines(g, r, c)
  }

  /** No square is a revealed mine (reveal() refuses mines, so this always holds). */
  predicate NoRevealedMine(g: Grid) {
    forall r, c :: 0 <= r < |g| && 0 <= c < |g[r]| ==> !(g[r][c].IsBomb() && g[r][c].isRevealed)
  }

  /** No square is flagged and revealed at once. */
  predicate NoFlaggedRevealed(g: Grid) {
    forall r, c :: 0 <= r < |g| && 0 <= c < |g[r]| ==> !(g[r][c].isFlagged && g[r][c].isRevealed)
  }

  // ---------------------------------------------------------------------------
  // Counting squares by kind.

  datatype Kind = Mine | Revealed | Hidden | Flagged | HiddenSafe

  predicate Has(s: Square, k: Kind) {
    match k
    case Mine => s.IsBomb()
    case Revealed => s.isRevealed
    case Hidden => !s.isRevealed
    case Flagged => s.isFlagged
    case HiddenSafe => !s.IsBomb() && !s.isRevealed
  }

  function Ind(s: Square, k: Kind): nat {
    if Has(s, k) then 1 else 0
  }

  function CountRow(row: seq<Square>, k: Kind): nat {
    if |row| == 0 then 0 else CountRow(row[..|row| - 1], k) + Ind(row[|row| - 1], k)
  }

  /** The number of squares of kind k. */
  function Count(g: Grid, k: Kind): nat {
    if |g| == 0 then 0 else Count(g[..|g| - 1], k) + CountRow(g[|g| - 1], k)
  }

  lemma {:induction false} CountRowUpdate(row: seq<Square>, c: int, s: Square, k: Kind)
    requires 0 <= c < |row|
    ensures CountRow(row[c := s], k) == CountRow(row, k) - Ind(row[c], k) + Ind(s, k)
  {
    var n := |row| - 1;
    if c < n {
      assert row[c := s][..n] == row[..n][c := s];
      CountRowUpdate(row[..n], c, s, k);
    } else {
      assert row[c := s][..n] == row[..n];
    }
  }

  /** Replacing one square changes each count by that square's contribution only. */
  lemma {:induction false} CountUpdate(g: Grid, r: int, c: int, s: Square, k: Kind)
    requires InBounds(g, r, c)
    ensures Count(Update(g, r, c, s), k) == Count(g, k) - Ind(g[r][c], k) + Ind(s, k)
  {
    var n := |g| - 1;
    var h := Update(g, r, c, s);
    if r < n {
      assert h[..n] == Update(g[..n], r, c, s);
      CountUpdate(g[..n], r, c, s, k);
    } else {
      assert h[..n] == g[..n];
      CountRowUpdate(g[r], c, s, k);
    }
  }

  lemma {:induction false} CountRowNone(row: seq<Square>, k: Kind)
    ensures CountRow(row, k) == 0 <==> forall c :: 0 <= c < |row| ==> !Has(row[c], k)
  {
    if |row| > 0 {
      var n := |row| - 1;
      CountRowNone(row[..n], k);
      assert forall c :: 0 <= c < n ==> row[..n][c] == row[c];
    }
  }

  /** A count is zero exactly when no square has that kind. */
  lemma {:induction false} CountNone(g: Grid, k: Kind)
    ensures Count(g, k) == 0 <==> forall r, c :: InBounds(g, r, c) ==> !Has(g[r][c], k)
  {
    if |g| > 0 {
      var n := |g| - 1;
      CountNone(g[..n], k);
      CountRowNone(g[n], k);
      assert forall r, c :: InBounds(g[..n], r, c) <==> (InBounds(g, r, c) && r < n);
      assert forall r, c :: InBounds(g[..n], r, c) ==> g[..n][r][c] == g[r][c];
    }
  }

  lemma {:induction false} CountRowSplit(row: seq<Square>)
    requires forall c :: 0 <= c < |row| ==> !(row[c].IsBomb() && row[c].isRevealed)
    ensures CountRow(row, Revealed) + CountRow(row, Mine) + CountRow(row, HiddenSafe) == |row|
  {
    if |row| > 0 {
      var n := |row| - 1;
      assert forall c :: 0 <= c < n ==> row[..n][c] == row[c];
      CountRowSplit(row[..n]);
    }
  }

  /** With no revealed mine, every square is exactly one of: revealed, mine, hidden non-mine. */
  lemma {:induction false} CountSplit(g: Grid, rows: int, cols: int)
    requires IsGrid(g, rows, cols) && NoRevealedMine(g)
    ensures Count(g, Revealed) + Count(g, Mine) + Count(g, HiddenSafe) == rows * cols
  {
    if |g| > 0 {
      var n := |g| - 1;
      assert IsGrid(g[..n], n, cols) && NoRevealedMine(g[..n]) by {
        assert forall r :: 0 <= r < n ==> g[..n][r] == g[r];
      }
      CountSplit(g[..n], n, cols);
      CountRowSplit(g[n]);
      MulSucc(n, cols);
    }
  }

  lemma {:induction false} CountRowSame(a: seq<Square>, b: seq<Square>, k: Kind)
    requires |a| == |b| && forall c :: 0 <= c < |a| ==> (Has(a[c], k) <==> Has(b[c], k))
    ensures CountRow(a, k) == CountRow(b, k)
  {
    if |a| > 0 {
      var n := |a| - 1;
      assert forall c :: 0 <= c < n ==> a[..n][c] == a[c] && b[..n][c] == b[c];
      CountRowSame(a[..n], b[..n], k);
    }
  }

  /** Counts depend only on which squares have the kind. */
  lemma {:induction false} CountSame(g: Grid, h: Grid, k: Kind)
    requires |g| == |h| && forall i :: 0 <= i < |g| ==> |g[i]| == |h[i]|
    requires forall i, j :: InBounds(g, i, j) ==> (Has(g[i][j], k) <==> Has(h[i][j], k))
    ensures Count(g, k) == Count(h, k)
  {
    if |g| > 0 {
      var n := |g| - 1;
      assert forall i, j :: InBounds(g[..n], i, j) ==> g[..n][i][j] == g[i][j] && h[..n][i][j] == h[i][j];
      CountSame(g[..n], h[..n], k);
      CountRowSame(g[n], h[n], k);
    }
  }

  // ---------------------------------------------------------------------------
  // Row-major positions: cell n of a grid with cols columns is (n / cols, n % cols).

  lemma MulSucc(n: int, m: int)
    ensures (n + 1) * m == n * m + m
  {
  }

  lemma FlatIndexBounds(n: int, rows: int, cols: int)
    requires cols > 0 && 0 <= n < rows * cols
    ensures 0 <= n / cols < rows && 0 <= n % cols < cols
  {
  }

  lemma DivModUnique(n: int, cols: int, q: int, m: int)
    requires cols > 0 && 0 <= m < cols && n == q * cols + m
    ensures n / cols == q && n % cols == m
  {
    var q', m' := n / cols, n % cols;
    assert (q' - q) * cols == q' * cols - q * cols;
    MulSign(q' - q, cols);
  }

  lemma MulSign(d: int, m: int)
    requires m > 0
    ensures d >= 1 ==> d * m >= m
    ensures d <= -1 ==> d * m <= -m
  {
    if d >= 1 {
      MulLe(1, d, m);
    } else if d <= -1 {
      MulLe(d, -1, m);
    }
  }

  lemma MulNonNeg(a: int, b: int)
    requires a >= 0 && b >= 0
    ensures a * b >= 0
  {
  }

  lemma MulLe(a: int, b: int, m: int)
    requires a <= b && m >= 0
    ensures a * m <= b * m
  {
    assert b * m - a * m == (b - a) * m;
    MulNonNeg(b - a, m);
  }

  /** The row-major position of (r, c) in a rows-by-cols field. */
  function FlatIndex(r: int, c: int, rows: int, cols: int): (n: int)
    requires 0 <= r < rows && 0 <= c < cols
    ensures 0 <= n < rows * cols && n / cols == r && n % cols == c
  {
    FlatIndexOf(r, c, rows, cols);
    r * cols + c
  }

  lemma FlatIndexOf(r: int, c: int, rows: int, cols: int)
    requires 0 <= r < rows && 0 <= c < cols
    ensures 0 <= r * cols + c < rows * cols
    ensures (r * cols + c) / cols == r && (r * cols + c) % cols == c
  {
    MulNonNeg(r, cols);
    MulSucc(r, cols);
    MulLe(r + 1, rows, cols);
    DivModUnique(r * cols + c, cols, r, c);
  }
}
