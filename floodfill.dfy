/**
 * The zero flood fill (revealZeros in gui/Board.java): full row-major passes
 * over the field, each revealing every unflagged square next to a revealed
 * zero, repeated until a pass reveals nothing. A pass sees the reveals made
 * earlier in the same pass.
 */
module FloodFill {
  import opened Squares
  import opened Grids
  import opened Generation

  ghost predicate SameShape(g: Grid, h: Grid) {
    |g| == |h| && forall i :: 0 <= i < |g| ==> |g[i]| == |h[i]|
  }

  /** An in-bounds revealed zero. */
  predicate RevealedZeroAt(g: Grid, r: int, c: int) {
    InBounds(g, r, c) && g[r][c].isRevealed && g[r][c].number == 0
  }

  /** Some position of the neighbourhood of (i, j) holds a revealed zero. */
  predicate ZeroNeighbor(g: Grid, i: int, j: int) {
    exists k :: 0 <= k < 9 && RevealedZeroAt(g, NeighborRow(i, k), NeighborCol(j, k))
  }

  /** The squares a pass reveals when it reaches them. */
  predicate ShouldReveal(g: Grid, i: int, j: int)
    requires InBounds(g, i, j)
  {
    !g[i][j].isFlagged && !g[i][j].isRevealed && !g[i][j].IsBomb() && ZeroNeighbor(g, i, j)
  }

  /**
   * One square of a pass: an unflagged, unrevealed square next to a revealed
   * zero is revealed; a mine refuses, and the BombException is swallowed.
   */
  function Step(g: Grid, i: int, j: int): (h: Grid)
    requires InBounds(g, i, j)
    ensures |h| == |g| && forall r :: 0 <= r < |g| ==> |h[r]| == |g[r]|
  {
    var s := g[i][j];
    if ZeroNeighbor(g, i, j) && !s.isFlagged && !s.isRevealed then
      match s.Reveal()
      case BombException => g
      case RevealedSquare(t) => Update(g, i, j, t)
    else g
  }

  /** The rest of a pass, from square (i, j) on in row-major order. */
  function PassFrom(g: Grid, i: nat, j: nat): (h: Grid)
    decreases |g| - i, if i < |g| then |g[i]| - j else 0
    ensures |h| == |g| && forall r :: 0 <= r < |g| ==> |h[r]| == |g[r]|
  {
    if i >= |g| then g
    else if j >= |g[i]| then PassFrom(g, i + 1, 0)
    else PassFrom(Step(g, i, j), i, j + 1)
  }

  /** One full pass of the outer loop. */
  function Pass(g: Grid): Grid {
    PassFrom(g, 0, 0)
  }

  /** h differs from g only by newly revealed squares that are neither mines nor flagged. */
  ghost predicate RevealsOnly(g: Grid, h: Grid) {
    SameShape(g, h) &&
    forall r, c :: InBounds(g, r, c) ==>
      h[r][c].number == g[r][c].number && h[r][c].isFlagged == g[r][c].isFlagged &&
      (g[r][c].isRevealed ==> h[r][c].isRevealed) &&
      (h[r][c].isRevealed && !g[r][c].isRevealed ==> !g[r][c].IsBomb() && !g[r][c].isFlagged)
  }

  lemma RevealsOnlyTrans(g: Grid, h: Grid, u: Grid)
    requires RevealsOnly(g, h) && RevealsOnly(h, u)
    ensures RevealsOnly(g, u)
  {
  }

  /** Reveals cannot be undone: a field that has changed never changes back. */
  lemma RevealsOnlyStrict(g: Grid, h: Grid, u: Grid)
    requires RevealsOnly(g, h) && RevealsOnly(h, u) && h != g
    ensures u != g
  {
    if u == g {
      forall r, c | InBounds(g, r, c) ensures g[r][c] == h[r][c] {
        assert h[r][c].isRevealed == g[r][c].isRevealed;
      }
      GridExt(g, h);
    }
  }

  /** A step reveals exactly the square it may reveal, and nothing else. */
  lemma StepSpec(g: Grid, i: int, j: int)
    requires InBounds(g, i, j)
    ensures RevealsOnly(g, Step(g, i, j))
    ensures ShouldReveal(g, i, j) ==> Step(g, i, j) == Update(g, i, j, g[i][j].(isRevealed := true))
    ensures ShouldReveal(g, i, j) ==> Count(Step(g, i, j), Hidden) == Count(g, Hidden) - 1
    ensures !ShouldReveal(g, i, j) ==> Step(g, i, j) == g
  {
    if ShouldReveal(g, i, j) {
      CountUpdate(g, i, j, g[i][j].(isRevealed := true), Hidden);
    }
  }

  lemma {:induction false} PassFromRevealsOnly(g: Grid, i: nat, j: nat)
    decreases |g| - i, if i < |g| then |g[i]| - j else 0
    ensures RevealsOnly(g, PassFrom(g, i, j))
  {
    if i >= |g| {
    } else if j >= |g[i]| {
      PassFromRevealsOnly(g, i + 1, 0);
    } else {
      var h := Step(g, i, j);
      StepSpec(g, i, j);
      PassFromRevealsOnly(h, i, j + 1);
      RevealsOnlyTrans(g, h, PassFrom(h, i, j + 1));
    }
  }

  lemma {:induction false} PassFromCount(g: Grid, i: nat, j: nat)
    decreases |g| - i, if i < |g| then |g[i]| - j else 0
    ensures Count(PassFrom(g, i, j), Hidden) <= Count(g, Hidden)
    ensures Count(PassFrom(g, i, j), Hidden) == Count(g, Hidden) ==> PassFrom(g, i, j) == g
  {
    if i >= |g| {
    } else if j >= |g[i]| {
      PassFromCount(g, i + 1, 0);
    } else {
      StepSpec(g, i, j);
      PassFromCount(Step(g, i, j), i, j + 1);
    }
  }

  lemma {:induction false} PassFromClosed(g: Grid, i: nat, j: nat)
    requires PassFrom(g, i, j) == g
    decreases |g| - i, if i < |g| then |g[i]| - j else 0
    ensures forall r, c :: InBounds(g, r, c) && !Precedes(r, c, i, j) ==> !ShouldReveal(g, r, c)
  {
    if i >= |g| {
    } else if j >= |g[i]| {
      PassFromClosed(g, i + 1, 0);
    } else {
      StepSpec(g, i, j);
      PassFromCount(Step(g, i, j), i, j + 1);
      assert Step(g, i, j) == g;
      PassFromClosed(g, i, j + 1);
      forall r, c | InBounds(g, r, c) && !Precedes(r, c, i, j) ensures !ShouldReveal(g, r, c) {
        if (r, c) != (i, j) {
          assert !Precedes(r, c, i, j + 1);
        }
      }
    }
  }

  /**
   * A pass only reveals, and either reveals something (the count of hidden
   * squares drops) or leaves the grid as it was, and then no square from
   * (i, j) on is one it should reveal.
   */
  lemma PassFromSpec(g: Grid, i: nat, j: nat)
    ensures RevealsOnly(g, PassFrom(g, i, j))
    ensures Count(PassFrom(g, i, j), Hidden) <= Count(g, Hidden)
    ensures Count(PassFrom(g, i, j), Hidden) == Count(g, Hidden) ==>
              PassFrom(g, i, j) == g &&
              forall r, c :: InBounds(g, r, c) && !Precedes(r, c, i, j) ==> !ShouldReveal(g, r, c)
  {
    PassFromRevealsOnly(g, i, j);
    PassFromCount(g, i, j);
    if PassFrom(g, i, j) == g {
      PassFromClosed(g, i, j);
    }
  }

  /** The outer loop: passes until one reveals nothing. */
  function Fill(g: Grid): (h: Grid)
    decreases Count(g, Hidden)
    ensures |h| == |g| && forall r :: 0 <= r < |g| ==> |h[r]| == |g[r]|
  {
    var h := Pass(g);
    PassFromSpec(g, 0, 0);
    if h == g then g else Fill(h)
  }

  /** A field on which no square should be revealed: the fixed point of the fill. */
  ghost predicate FloodClosed(g: Grid) {
    forall r, c :: InBounds(g, r, c) ==> !ShouldReveal(g, r, c)
  }

  lemma PassChanges(g: Grid)
    ensures Pass(g) == g <==> FloodClosed(g)
  {
    PassFromSpec(g, 0, 0);
    if FloodClosed(g) && Pass(g) != g {
      ClosedPassFrom(g, 0, 0);
    }
  }

  lemma {:induction false} ClosedPassFrom(g: Grid, i: nat, j: nat)
    requires FloodClosed(g)
    decreases |g| - i, if i < |g| then |g[i]| - j else 0
    ensures PassFrom(g, i, j) == g
  {
    if i >= |g| {
    } else if j >= |g[i]| {
      ClosedPassFrom(g, i + 1, 0);
    } else {
      StepSpec(g, i, j);
      ClosedPassFrom(g, i, j + 1);
    }
  }

  /** The fill only reveals unflagged non-mines, never un-reveals, and ends at a fixed point. */
  lemma {:induction false} FillSpec(g: Grid)
    decreases Count(g, Hidden)
    ensures RevealsOnly(g, Fill(g))
    ensures FloodClosed(Fill(g))
  {
    var h := Pass(g);
    PassFromSpec(g, 0, 0);
    PassChanges(g);
    if h != g {
      FillSpec(h);
      RevealsOnlyTrans(g, h, Fill(h));
    }
  }

  /** Filling a filled field changes nothing. */
  lemma FillIdempotent(g: Grid)
    ensures Fill(Fill(g)) == Fill(g)
  {
    FillSpec(g);
    PassChanges(Fill(g));
  }

  // ---------------------------------------------------------------------------
  // On a consistent field the fixed point is the familiar one.

  lemma {:induction false} SameMinesAmong(g: Grid, h: Grid, i: int, j: int, k: nat)
    requires k <= 9 && SameShape(g, h)
    requires forall r, c :: InBounds(g, r, c) ==> (g[r][c].IsBomb() <==> h[r][c].IsBomb())
    ensures MinesAmong(g, i, j, k) == MinesAmong(h, i, j, k)
  {
    if k > 0 {
      SameMinesAmong(g, h, i, j, k - 1);
    }
  }

  /** Revealing squares keeps the field consistent: numbers and mines do not move. */
  lemma RevealsOnlyConsistent(g: Grid, h: Grid)
    requires RevealsOnly(g, h) && Consistent(g)
    ensures Consistent(h) && ValidNumbers(g) == ValidNumbers(h)
    ensures NoRevealedMine(g) ==> NoRevealedMine(h)
    ensures NoFlaggedRevealed(g) ==> NoFlaggedRevealed(h)
  {
    forall r, c | InBounds(h, r, c) && !h[r][c].IsBomb() ensures h[r][c].number == NeighborMines(h, r, c) {
      SameMinesAmong(g, h, r, c, 9);
    }
  }

  /**
   * On a consistent field, once the fill is done every unflagged neighbour of a
   * revealed zero is revealed.
   */
  lemma FillRevealsAroundZeros(g: Grid, r: int, c: int, k: int)
    requires Consistent(g) && 0 <= k < 9
    requires RevealedZeroAt(Fill(g), r, c)
    requires InBounds(g, NeighborRow(r, k), NeighborCol(c, k))
    requires !g[NeighborRow(r, k)][NeighborCol(c, k)].isFlagged
    ensures Fill(g)[NeighborRow(r, k)][NeighborCol(c, k)].isRevealed
  {
    var h := Fill(g);
    FillSpec(g);
    RevealsOnlyConsistent(g, h);
    var r', c' := NeighborRow(r, k), NeighborCol(c, k);
    NeighborSymmetric(r, c, k);
    assert RevealedZeroAt(h, NeighborRow(r', 8 - k), NeighborCol(c', 8 - k));
    MinesAmongZero(h, r, c, 9);
    assert !IsMineAt(h, r', c');
    assert !ShouldReveal(h, r', c');
  }
}
