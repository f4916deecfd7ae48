/**
 * One cell of the mine field (gui/Square.java): a number fixed at construction
 * (-1 for a mine, otherwise the count of neighbouring mines) and the two marks
 * the game changes, revealed and flagged.
 */
module Squares {
  import opened Wrappers

  datatype Square = Square(number: int, isRevealed: bool, isFlagged: bool)
  {
    /** isBomb(): the number -1 means a mine. */
    predicate IsBomb() {
      number == -1
    }

    /** reveal(): a mine refuses (BombException); any other square becomes revealed. */
    function Reveal(): (r: RevealResult)
      ensures r.BombException? <==> IsBomb()
      ensures r.RevealedSquare? ==>
                r.square.isRevealed && r.square.number == number && r.square.isFlagged == isFlagged
    {
      if number == -1 then BombException else RevealedSquare(this.(isRevealed := true))
    }

    /** setIsFlagged(b): sets the flag to exactly b, whatever the revealed mark says. */
    function SetIsFlagged(b: bool): (r: Square)
      ensures r.isFlagged == b && r.number == number && r.isRevealed == isRevealed
    {
      this.(isFlagged := b)
    }
  }

  /** The outcome of reveal(): the exception, or the revealed square. */
  datatype RevealResult = BombException | RevealedSquare(square: Square)

  /** The range the constructor accepts: {-1} and [0, 8]. */
  predicate ValidNumber(n: int) {
    n == -1 || 0 <= n <= 8
  }

  /** new Square(n): rejects numbers outside {-1} and [0, 8] (IllegalArgumentException). */
  function NewSquare(n: int): (r: Option<Square>)
    ensures r.Some? <==> ValidNumber(n)
    ensures r.Some? ==> r.value.number == n && !r.value.isRevealed && !r.value.isFlagged
  {
    if n > 8 || (n < 0 && n != -1) then None else Some(Square(n, false, false))
  }

  /** Revealing twice is the same as revealing once, and a failed reveal changes nothing. */
  lemma RevealIdempotent(s: Square)
    ensures s.Reveal().RevealedSquare? ==> s.Reveal().square.Reveal() == s.Reveal()
  {
  }

  /** Setting the flag back to its old value restores the square. */
  lemma SetIsFlaggedRestores(s: Square, b: bool)
    ensures s.SetIsFlagged(b).SetIsFlagged(s.isFlagged) == s
  {
  }
}
