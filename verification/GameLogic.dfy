/**
 The game controller. It owns the authoritative grid and the installed
 opponent, which keeps a shadow grid of its own. A turn validates the
 human's column, drops the human's piece and checks for a win, asks the
 opponent for a column, drops its piece and checks for a win, and finally
 checks for a draw. The controller has no game-over state: the display is
 told the outcome and further moves are still accepted.
 */
module GameLogic {
  import opened Board
  import opened Win
  import StupidPlayer
  import SmartPlayer

  /** The installed opponent (difficulty 1 is the random one) and its shadow grid. */
  datatype Player = Stupid(shadow: Grid) | Smart(shadow: Grid)

  datatype Game = Game(board: Grid, ai: Player)

  /**
   What the display learns at the end of an accepted turn: nothing beyond
   the new grid, or gameOver(winner), where NEITHER announces a draw.
   */
  datatype Outcome = Ongoing | Over(winner: Status)

  /**
   The result of addPiece: the move is rejected (false), or it is played
   (true). OutOfDraws stands for a turn whose random opponent did not find
   a legal column among the supplied draws; the source would keep drawing.
   */
  datatype Turn = Rejected | Played(game: Game, outcome: Outcome) | OutOfDraws

  /**
   The state a turn starts from when no win has been announced: the grid
   respects gravity, the opponent's shadow grid equals it, and an even
   number of cells is empty (both players have moved equally often).
   */
  ghost predicate Synced(g: Game) {
    && Gravity(g.board)
    && g.ai.shadow == g.board
    && EmptyCount(g.board) % 2 == 0
  }

  /** The grid has no piece at all. */
  ghost predicate Cleared(b: Grid) {
    forall r, c | InBounds(r, c) :: b[r][c] == NEITHER
  }

  lemma EmptyGridSynced(ai: Player)
    requires ai.shadow == EmptyGrid()
    ensures Synced(Game(EmptyGrid(), ai))
  {
    EmptyGridCount();
  }

  /** The constructor: an empty grid and a random opponent with an empty shadow grid. */
  function NewGame(): (g: Game)
    ensures g.ai.Stupid?
    ensures Cleared(g.board) && Cleared(g.ai.shadow)
    ensures Synced(g)
  {
    EmptyGridSynced(Stupid(EmptyGrid()));
    Game(EmptyGrid(), Stupid(EmptyGrid()))
  }

  /**
   reset: difficulty 1 installs a fresh random opponent, any other value a
   fresh heuristic one; the grid is cleared. The previous game leaves no trace.
   */
  function Reset(difficulty: int): (g: Game)
    ensures g.ai.Stupid? <==> difficulty == 1
    ensures Cleared(g.board) && Cleared(g.ai.shadow)
    ensures Synced(g)
  {
    var ai := if difficulty == 1 then Stupid(EmptyGrid()) else Smart(EmptyGrid());
    EmptyGridSynced(ai);
    Game(EmptyGrid(), ai)
  }

  /**
   The grid has 42 cells and an even number of them is empty before the
   human moves, so after the human's piece some column is still legal for
   the opponent.
   */
  lemma RoomForReply(g: Game, col: int)
    requires Synced(g) && IsColumnValid(g.board, col)
    ensures HasValidColumn(Drop(g.board, col, ONE).board)
  {
    var human := Drop(g.board, col, ONE);
    PlacedLowersEmptyCount(g.board, human.board, human.row, col, ONE);
    FullIffNoEmpties(human.board);
    FullIffNoValidColumn(human.board);
  }

  /**
   Asks the opponent for its move after the human played `col`. On a synced
   game the column the opponent chooses is legal on the controller's grid
   after the human's drop, and the opponent's new shadow grid is that grid
   with its own piece dropped there.
   */
  function Ask(g: Game, col: int, draws: seq<int>): (reply: Option<(Player, int)>)
    requires Synced(g)
    requires IsColumnValid(g.board, col)
    ensures g.ai.Smart? ==> reply.Some?
    ensures reply.Some? ==> reply.value.0.Stupid? == g.ai.Stupid?
    ensures reply.Some? ==> IsColumnValid(Drop(g.board, col, ONE).board, reply.value.1)
    ensures reply.Some? ==> reply.value.0.shadow == Drop(Drop(g.board, col, ONE).board, reply.value.1, TWO).board
    ensures g.ai.Stupid? ==>
      var m := StupidPlayer.MakeMove(g.ai.shadow, col, draws);
      && (reply.None? <==> m.None?)
      && (reply.Some? ==> reply.value == (Stupid(m.value.shadow), m.value.col))
    ensures g.ai.Smart? ==>
      (RoomForReply(g, col);
       var m := SmartPlayer.MakeMove(g.ai.shadow, col);
       reply == Some((Smart(m.shadow), m.col)))
  {
    var human := Drop(g.board, col, ONE);
    RoomForReply(g, col);
    match g.ai
    case Stupid(shadow) =>
      (match StupidPlayer.MakeMove(shadow, col, draws)
       case None => None
       case Some(m) =>
         var d := Drop(human.board, m.col, TWO);
         assert StupidPlayer.Recorded(shadow, col) == human.board;
         assert m.shadow == d.board by {
           var row :| 0 <= row < HEIGHT && Placed(human.board, m.shadow, row, m.col, TWO);
           PlacedRowUnique(human.board, m.shadow, d.board, row, d.row, m.col, TWO);
         }
         Some((Stupid(m.shadow), m.col)))
    case Smart(shadow) =>
      var m := SmartPlayer.MakeMove(shadow, col);
      var d := Drop(human.board, m.col, TWO);
      PlacedRowUnique(human.board, m.shadow, d.board, d.row, d.row, m.col, TWO);
      Some((Smart(m.shadow), m.col))
  }

  /**
   The opponent's half of addPiece: its piece goes into `aiCol`; a win is
   announced for TWO, otherwise a full grid is announced as a draw.
   */
  function FinishTurn(human: Grid, ai: Player, aiCol: int): (t: Turn)
    requires IsColumnValid(human, aiCol)
    ensures t.Played? && t.game == Game(Drop(human, aiCol, TWO).board, ai)
    ensures t.outcome != Over(ONE)
    ensures t.outcome == Over(TWO) <==> LineOfFour(Drop(human, aiCol, TWO).board, Drop(human, aiCol, TWO).row, aiCol)
    ensures t.outcome == Over(NEITHER) <==>
      !LineOfFour(Drop(human, aiCol, TWO).board, Drop(human, aiCol, TWO).row, aiCol) && IsFull(Drop(human, aiCol, TWO).board)
  {
    var machine := Drop(human, aiCol, TWO);
    if IsConnectFour(machine.board, machine.row, aiCol) then Played(Game(machine.board, ai), Over(TWO))
    else if IsFull(machine.board) then Played(Game(machine.board, ai), Over(NEITHER))
    else Played(Game(machine.board, ai), Ongoing)
  }

  /** A turn in which both players moved leaves the opponent's shadow grid in step with the grid. */
  lemma SyncedAfterTurn(g: Game, col: int, ai: Player, aiCol: int)
    requires Synced(g) && IsColumnValid(g.board, col)
    requires IsColumnValid(Drop(g.board, col, ONE).board, aiCol)
    requires ai.shadow == Drop(Drop(g.board, col, ONE).board, aiCol, TWO).board
    ensures Synced(Game(Drop(Drop(g.board, col, ONE).board, aiCol, TWO).board, ai))
  {
    var human := Drop(g.board, col, ONE);
    var machine := Drop(human.board, aiCol, TWO);
    PlacedLowersEmptyCount(g.board, human.board, human.row, col, ONE);
    PlacedLowersEmptyCount(human.board, machine.board, machine.row, aiCol, TWO);
  }

  /**
   addPiece. An illegal column is rejected before anything happens. Otherwise
   the human's piece is dropped; a win ends the turn without consulting the
   opponent. Else the opponent's piece is dropped in the column it names, and
   the turn reports its win, a draw on a full grid, or nothing.
   */
  function AddPiece(g: Game, col: int, draws: seq<int>): (t: Turn)
    requires IsColumnValid(g.board, col) ==> Synced(g)
    ensures t.Rejected? <==> !IsColumnValid(g.board, col)
    ensures t.OutOfDraws? ==> g.ai.Stupid?
    ensures IsColumnValid(g.board, col) ==>
      var human := Drop(g.board, col, ONE);
      && (t.Played? && t.outcome == Over(ONE) <==> LineOfFour(human.board, human.row, col))
      && (t.Played? && t.outcome == Over(ONE) ==> t.game == Game(human.board, g.ai))
      && (t.OutOfDraws? <==> !LineOfFour(human.board, human.row, col) && Ask(g, col, draws).None?)
      && (t.Played? && t.outcome != Over(ONE) ==> Ask(g, col, draws).Some?)
      && (t.Played? && t.outcome != Over(ONE) ==>
            var (ai, aiCol) := Ask(g, col, draws).value;
            var machine := Drop(human.board, aiCol, TWO);
            && t.game == Game(machine.board, ai)
            && ai.shadow == machine.board
            && (t.outcome == Over(TWO) <==> LineOfFour(machine.board, machine.row, aiCol))
            && (t.outcome == Over(NEITHER) <==> !LineOfFour(machine.board, machine.row, aiCol) && IsFull(machine.board)))
    ensures t.Played? ==> t.game.ai.Stupid? == g.ai.Stupid?
    ensures t.Played? && t.outcome != Over(ONE) ==> Synced(t.game)
  {
    if !IsColumnValid(g.board, col) then Rejected
    else
      var human := Drop(g.board, col, ONE);
      if IsConnectFour(human.board, human.row, col) then Played(Game(human.board, g.ai), Over(ONE))
      else
        match Ask(g, col, draws)
        case None => OutOfDraws
        case Some((ai', aiCol)) =>
          SyncedAfterTurn(g, col, ai', aiCol);
          FinishTurn(human.board, ai', aiCol)
  }
}
