/**
 The random opponent. It keeps its own shadow grid, records the human's
 column on it, draws columns until one is legal, and records its own piece
 there. The random generator is replaced by a finite sequence of draws.
 */
module StupidPlayer {
  import opened Board

  /**
   This player's dropPiece is guarded: on an illegal column it does nothing,
   otherwise it fills the lowest empty cell of the column.
   */
  function GuardedDrop(b: Grid, col: int, p: Status): (b': Grid)
    ensures !IsColumnValid(b, col) ==> b' == b
    ensures IsColumnValid(b, col) ==> exists row | 0 <= row < HEIGHT :: Placed(b, b', row, col, p)
    ensures Gravity(b) && p != NEITHER ==> Gravity(b')
  {
    if !IsColumnValid(b, col) then b
    else
      var d := Drop(b, col, p);
      assert Placed(b, d.board, d.row, col, p);
      d.board
  }

  /**
   The retry loop: the index of the first draw that names a legal column,
   or None when no supplied draw does (the source would keep drawing).
   */
  function FirstValid(b: Grid, draws: seq<int>): (i: Option<nat>)
    ensures i.Some? ==> i.value < |draws| && IsColumnValid(b, draws[i.value])
    ensures i.Some? ==> forall j | 0 <= j < i.value :: !IsColumnValid(b, draws[j])
    ensures i.None? <==> forall j | 0 <= j < |draws| :: !IsColumnValid(b, draws[j])
  {
    if |draws| == 0 then None
    else if IsColumnValid(b, draws[0]) then Some(0)
    else
      match FirstValid(b, draws[1..])
      case None => None
      case Some(k) => Some(k + 1)
  }

  /**
   The grid after the human's piece is recorded on the shadow grid: the
   unguarded drop on a legal column, the shadow grid itself otherwise.
   */
  function Recorded(shadow: Grid, lastCol: int): (b: Grid)
    ensures IsColumnValid(shadow, lastCol) ==> b == Drop(shadow, lastCol, ONE).board
    ensures !IsColumnValid(shadow, lastCol) ==> b == shadow
  {
    GuardedDrop(shadow, lastCol, ONE)
  }

  /**
   makeMove: record the human's piece, take the first legal draw, record
   this player's piece there and answer that column.
   */
  function MakeMove(shadow: Grid, lastCol: int, draws: seq<int>): (m: Option<Move>)
    ensures m.None? <==> forall j | 0 <= j < |draws| :: !IsColumnValid(Recorded(shadow, lastCol), draws[j])
    ensures m.Some? ==> 0 <= m.value.col < WIDTH && IsColumnValid(Recorded(shadow, lastCol), m.value.col)
    ensures m.Some? ==> exists i | 0 <= i < |draws| ::
      && draws[i] == m.value.col
      && forall j | 0 <= j < i :: !IsColumnValid(Recorded(shadow, lastCol), draws[j])
    ensures m.Some? ==> exists row | 0 <= row < HEIGHT :: Placed(Recorded(shadow, lastCol), m.value.shadow, row, m.value.col, TWO)
    ensures m.Some? && Gravity(shadow) ==> Gravity(m.value.shadow)
  {
    var after := Recorded(shadow, lastCol);
    match FirstValid(after, draws)
    case None => None
    case Some(i) =>
      var col := draws[i];
      Some(Move(GuardedDrop(after, col, TWO), col))
  }
}
