/**
 * Field generation (generateField in gui/Board.java): rejection sampling of
 * the mine positions from a stream of random draws, the neighbour counts of
 * the other squares, and the "X" safe-start marker on the first zero.
 */
module Generation {
  import opened Wrappers
  import opened Squares
  import opened Grids

  /** A java.awt.Point: x is the column, y the row. */
  datatype Point = Point(x: int, y: int)

  predicate Distinct(s: seq<Point>) {
    forall a, b :: 0 <= a < b < |s| ==> s[a] != s[b]
  }

  /** Every draw lies on a rows-by-cols field, as nextInt(numCols), nextInt(numRows) do. */
  predicate DrawsInRange(draws: seq<Point>, rows: int, cols: int) {
    forall d :: d in draws ==> 0 <= d.x < cols && 0 <= d.y < rows
  }

  /** The draws with repeats dropped, in order of first appearance. */
  function Dedup(s: seq<Point>): (r: seq<Point>)
    ensures forall p :: p in r <==> p in s
    ensures Distinct(r)
    ensures |r| <= |s|
  {
    if s == [] then []
    else
      var p := Dedup(s[..|s| - 1]);
      if s[|s| - 1] in p then p else p + [s[|s| - 1]]
  }

  /** Dropping repeats from a prefix of the draws gives a prefix of the result. */
  lemma {:induction false} DedupPrefix(s: seq<Point>, m: nat)
    requires m <= |s|
    ensures Dedup(s[..m]) <= Dedup(s)
  {
    if m < |s| {
      var n := |s| - 1;
      assert s[..n][..m] == s[..m];
      DedupPrefix(s[..n], m);
      assert s[..n] == s[..|s| - 1];
    } else {
      assert s[..m] == s;
    }
  }

  /** The mine positions the sampling loop keeps: the first `bombs` distinct draws. */
  function MinePlacement(draws: seq<Point>, bombs: nat): seq<Point>
    requires bombs <= |Dedup(draws)|
  {
    Dedup(draws)[..bombs]
  }

  /** Mines among the first k neighbourhood positions of (r, c), read off the mine list. */
  function AdjacentAmong(mines: seq<Point>, r: int, c: int, k: nat): (n: nat)
    requires k <= 9
    ensures n <= k
  {
    if k == 0 then 0
    else AdjacentAmong(mines, r, c, k - 1) + (if Point(NeighborCol(c, k - 1), NeighborRow(r, k - 1)) in mines then 1 else 0)
  }

  function AdjacentMines(mines: seq<Point>, r: int, c: int): nat {
    AdjacentAmong(mines, r, c, 9)
  }

  function GeneratedSquare(mines: seq<Point>, r: int, c: int): Square {
    if Point(c, r) in mines then Square(-1, false, false) else Square(AdjacentMines(mines, r, c), false, false)
  }

  /** The field generateField builds: mines at the listed points, every other square its count. */
  function GeneratedGrid(rows: nat, cols: nat, mines: seq<Point>): (g: Grid)
    ensures IsGrid(g, rows, cols)
  {
    seq(rows, r => seq(cols, c => GeneratedSquare(mines, r, c)))
  }

  /** The field right after the mines are placed: mines at the listed points, placeholders elsewhere. */
  function MaskGrid(rows: nat, cols: nat, mines: seq<Point>): (g: Grid)
    ensures IsGrid(g, rows, cols)
  {
    seq(rows, r => seq(cols, c => if Point(c, r) in mines then Square(-1, false, false) else Square(0, false, false)))
  }

  /** A grid whose mines are exactly the listed points. */
  ghost predicate MinesAt(g: Grid, mines: seq<Point>) {
    forall r, c :: InBounds(g, r, c) ==> (g[r][c].IsBomb() <==> Point(c, r) in mines)
  }

  /** Counting from the grid agrees with counting from the mine list. */
  lemma {:induction false} MinesAmongFromList(g: Grid, rows: nat, cols: nat, mines: seq<Point>, i: int, j: int, k: nat)
    requires k <= 9
    requires IsGrid(g, rows, cols) && DrawsInRange(mines, rows, cols) && MinesAt(g, mines)
    ensures MinesAmong(g, i, j, k) == AdjacentAmong(mines, i, j, k)
  {
    if k > 0 {
      MinesAmongFromList(g, rows, cols, mines, i, j, k - 1);
      var r, c := NeighborRow(i, k - 1), NeighborCol(j, k - 1);
      if !InBounds(g, r, c) {
        assert Point(c, r) !in mines;
      }
    }
  }

  /** Generation meets the field invariant: valid numbers that match the mines around them. */
  lemma GeneratedConsistent(rows: nat, cols: nat, mines: seq<Point>)
    requires DrawsInRange(mines, rows, cols)
    ensures MinesAt(GeneratedGrid(rows, cols, mines), mines)
    ensures Consistent(GeneratedGrid(rows, cols, mines))
    ensures ValidNumbers(GeneratedGrid(rows, cols, mines))
    ensures Count(GeneratedGrid(rows, cols, mines), Revealed) == 0
    ensures Count(GeneratedGrid(rows, cols, mines), Flagged) == 0
  {
    var g := GeneratedGrid(rows, cols, mines);
    forall r, c | InBounds(g, r, c) && !g[r][c].IsBomb()
      ensures g[r][c].number == NeighborMines(g, r, c) && g[r][c].number <= 8
    {
      MinesAmongFromList(g, rows, cols, mines, r, c, 9);
      MinesAmongAtMostEight(g, r, c, 9);
    }
    CountNone(g, Revealed);
    CountNone(g, Flagged);
  }

  /** Adding one new point to the list adds exactly one mine to the mask. */
  lemma MaskGridSnoc(rows: nat, cols: nat, mines: seq<Point>, p: Point)
    requires 0 <= p.x < cols && 0 <= p.y < rows
    ensures MaskGrid(rows, cols, mines + [p]) == Update(MaskGrid(rows, cols, mines), p.y, p.x, Square(-1, false, false))
  {
    var g := MaskGrid(rows, cols, mines + [p]);
    var h := Update(MaskGrid(rows, cols, mines), p.y, p.x, Square(-1, false, false));
    GridExt(g, h);
  }

  lemma {:induction false} MaskGridMineCount(rows: nat, cols: nat, mines: seq<Point>)
    requires Distinct(mines) && DrawsInRange(mines, rows, cols)
    ensures Count(MaskGrid(rows, cols, mines), Mine) == |mines|
  {
    if mines == [] {
      CountNone(MaskGrid(rows, cols, mines), Mine);
    } else {
      var n := |mines| - 1;
      var p := mines[n];
      assert mines == mines[..n] + [p];
      MaskGridMineCount(rows, cols, mines[..n]);
      MaskGridSnoc(rows, cols, mines[..n], p);
      CountUpdate(MaskGrid(rows, cols, mines[..n]), p.y, p.x, Square(-1, false, false), Mine);
    }
  }

  /** Distinct in-range mine positions give exactly that many mines on the field. */
  lemma GeneratedMineCount(rows: nat, cols: nat, mines: seq<Point>)
    requires Distinct(mines) && DrawsInRange(mines, rows, cols)
    ensures Count(GeneratedGrid(rows, cols, mines), Mine) == |mines|
  {
    MaskGridMineCount(rows, cols, mines);
    CountSame(GeneratedGrid(rows, cols, mines), MaskGrid(rows, cols, mines), Mine);
  }

  // ---------------------------------------------------------------------------
  // The "X" marker goes on the first zero of a row-major scan.

  /** (r1, c1) comes strictly before (r2, c2) in row-major order. */
  predicate Precedes(r1: int, c1: int, r2: int, c2: int) {
    r1 < r2 || (r1 == r2 && c1 < c2)
  }

  /** The first square at or after (r, c), in row-major order, whose number is 0. */
  function FirstZeroFrom(g: Grid, r: nat, c: nat): (p: Option<(nat, nat)>)
    decreases |g| - r, if r < |g| then |g[r]| - c else 0
    ensures p.Some? ==> InBounds(g, p.value.0, p.value.1) && g[p.value.0][p.value.1].number == 0
    ensures p.Some? ==> !Precedes(p.value.0, p.value.1, r, c)
    ensures forall i, j :: InBounds(g, i, j) && !Precedes(i, j, r, c) && g[i][j].number == 0 ==>
              p.Some? && !Precedes(i, j, p.value.0, p.value.1)
  {
    if r >= |g| then None
    else if c >= |g[r]| then FirstZeroFrom(g, r + 1, 0)
    else if g[r][c].number == 0 then Some((r, c))
    else FirstZeroFrom(g, r, c + 1)
  }

  /** The position of the "X": the first zero of the field, if there is one. */
  function FirstZero(g: Grid): Option<(nat, nat)> {
    FirstZeroFrom(g, 0, 0)
  }

  /** (r, c) is a zero with no zero before it. */
  ghost predicate IsFirstZero(g: Grid, r: int, c: int) {
    InBounds(g, r, c) && g[r][c].number == 0 &&
    forall i, j :: InBounds(g, i, j) && Precedes(i, j, r, c) ==> g[i][j].number != 0
  }

  /** The marker is present exactly when the field has a zero, and it sits on the first one. */
  lemma FirstZeroSpec(g: Grid)
    ensures FirstZero(g).None? <==> forall i, j :: InBounds(g, i, j) ==> g[i][j].number != 0
    ensures forall r, c :: FirstZero(g) == Some((r, c)) <==> IsFirstZero(g, r, c)
  {
    forall r, c | IsFirstZero(g, r, c) ensures FirstZero(g) == Some((r, c)) {
      var p := FirstZero(g).value;
      assert !Precedes(p.0, p.1, r, c);
    }
  }
}
