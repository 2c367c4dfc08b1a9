# Connect Four rule engine and opponents, in Dafny

This project models the core of a Java Connect-Four game on a 7-wide, 6-tall grid:
- the board operations that the controller and both opponents each repeat on their own grid;
- the four-axis win detection;
- the controller's turn (`addPiece`) and `reset`;
- the two opponent strategies: the random one (`StupidPlayer`) and the one-ply heuristic (`SmartPlayer`).

Row 0 is the top row. A cell holds `ONE` (the human), `TWO` (the AI) or `NEITHER`.
The source works by writing into `Status[HEIGHT][WIDTH]` arrays.
Here a grid is an immutable `seq<seq<Status>>`, and every operation returns the new grid.

Modules, one per concern:
- `Board` (Board.dfy): the grid type, column validity, the unguarded `Drop` (with the row it fills), `Pop`, `IsFull`, the gravity invariant and the count of empty cells.
- `Win` (Win.dfy): the per-axis run counts, `IsConnectFour`, `MaxConnected` (getMaxNumOfConnectedPieces), and a reference definition `LineOfFour`, meaning four same-status cells in a row through the cell.
- `StupidPlayer` (StupidPlayer.dfy): the guarded drop, and the retry loop over injected random draws.
- `SmartPlayer` (SmartPlayer.dfy): the trial-drop scan, its leftmost-maximum result, and the offense/defense decision.
- `GameLogic` (GameLogic.dfy): the controller state, `NewGame`, `Reset`, `AddPiece`, and the invariant that keeps the opponent's shadow grid equal to the controller's grid.

Modelling choices:
- The unguarded `dropPiece` of GameLogic and SmartPlayer requires a legal column.
  On a full column the source writes to row -1.
  The comment above both methods says "do nothing", but the code has no such guard.
  StupidPlayer's `dropPiece` really is guarded, so it is modelled separately as `StupidPlayer.GuardedDrop`.
- `popPiece` requires a piece in the column. On an empty column the source also writes to row -1.
- `java.util.Random` is replaced by a sequence of draws.
  `StupidPlayer.MakeMove` returns the first draw that names a legal column.
  It returns `None` when no draw does; the source would keep drawing.
  The controller reports such a turn as `OutOfDraws`.
- The display is left out.
  The difficulty is a parameter of `Reset`.
  What `addPiece` would tell `gameOver` is returned as `Over(winner)`, where `Over(NEITHER)` is a draw.
- The code has no game-over state, and the model does not add one.
  After a win `addPiece` still accepts moves.

## Model

| member | source | states |
|---|---|---|
| Board.EmptyGrid | GameLogic.java:41-47 | a new grid has every cell NEITHER |
| Board.EmptyGridCount | GameLogic.java:42-47 | a new grid has exactly 42 empty cells |
| Board.IsColumnValid | GameLogic.java:126-132 | a column outside [0, 7) is never legal; inside, it is legal exactly when its top cell (row 0) is NEITHER; the same test appears in SmartPlayer.java:103-109 and StupidPlayer.java:75-81 |
| Board.ValidIffHasEmptyCell | GameLogic.java:126-132 | on a gravity-respecting grid, the top-cell test accepts a column exactly when the column still has an empty cell |
| Board.LowestEmpty | GameLogic.java:144-151 | the bottom-up scan returns the largest empty row at or above its start; every cell below it is occupied; it returns -1 when there is none |
| Board.Drop | GameLogic.java:143-155 | on a legal column, the piece lands in the lowest empty cell; the returned row is that cell; no other cell changes; gravity is preserved |
| Board.PlacedRowUnique | GameLogic.java:143-155 | the row and grid a drop produces are determined by the grid, the column and the piece |
| Board.TopOccupied | SmartPlayer.java:140-145 | the top-down scan returns the smallest occupied row at or below its start, or -1 |
| Board.Pop | SmartPlayer.java:139-148 | clears exactly the topmost occupied cell of the column and keeps gravity |
| Board.DropPopRoundTrip | SmartPlayer.java:121-148 | on a gravity-respecting grid, a drop followed by a pop of the same column restores the grid exactly |
| Board.FullFrom | GameLogic.java:239-246 | the nested scan is true exactly when no cell at or after its position, in row-major order, is empty |
| Board.IsFull | GameLogic.java:238-247 | full exactly when no cell is NEITHER |
| Board.FullIffNoValidColumn | GameLogic.java:238-247 | on a gravity-respecting grid, the grid is full exactly when no column is legal |
| Board.FullIffNoEmpties | GameLogic.java:238-247 | the grid is full exactly when its empty count is 0 |
| Board.PlacedLowersEmptyCount | GameLogic.java:143-155 | every drop of a piece lowers the number of empty cells by one |
| Win.RunAtLeast | GameLogic.java:172-174 | a counting loop reaches n exactly when the first n cells in its direction are on the grid and hold the piece |
| Win.Run | GameLogic.java:169-223 | one counting loop: it counts something exactly when its first cell is on the grid and holds the piece (its length is pinned down by RunAtLeast) |
| Win.AxisCount | GameLogic.java:169-178 | an axis total, the backward loop from the cell plus the forward loop past it, is at least 1, because the cell matches its own status |
| Win.AxisCountFour | GameLogic.java:169-182 | an axis total is 4 or more exactly when a window of four consecutive same-status cells on that axis covers the cell |
| Win.LineOfFourIffSomeAxis | GameLogic.java:164-231 | a line of four through the cell exists exactly when some axis total reaches 4 |
| Win.IsConnectFour | GameLogic.java:164-231 | true exactly when some axis (horizontal, vertical, either diagonal) has four consecutive cells, including the given one, holding that cell's status |
| Win.CompletingWindowWins | GameLogic.java:68-69 | a drop that completes a window of four on any axis is reported as a connect four |
| Win.RunBound | SmartPlayer.java:166-175 | a counting loop never counts past the grid edge in its direction |
| Win.AxisCountRange | SmartPlayer.java:166-224 | every axis total lies in [1, 7]; the cell always matches itself |
| Win.MaxConnected | SmartPlayer.java:158-227 | the result lies in [1, 7]; it is at least every axis total and equal to one of them |
| Win.MaxConnectedAgreesWithConnectFour | SmartPlayer.java:158-227 | on the same grid and cell, the largest total is at least 4 exactly when isConnectFour holds |
| StupidPlayer.GuardedDrop | StupidPlayer.java:90-104 | an illegal column leaves the grid unchanged; a legal one fills its lowest empty cell and changes nothing else |
| StupidPlayer.FirstValid | StupidPlayer.java:58-61 | returns the index of the first draw that names a legal column; returns None exactly when no draw does |
| StupidPlayer.Recorded | StupidPlayer.java:55 | recording the human's column is the ordinary drop of ONE when the column is legal, and leaves the shadow grid as it is otherwise |
| StupidPlayer.MakeMove | StupidPlayer.java:53-67 | after the human's piece is recorded, the answer is the first legal draw, in [0, 7); the shadow grid gets TWO at the lowest empty cell of that column; gravity is kept |
| SmartPlayer.Score | SmartPlayer.java:61-62 | a trial drop scores between 1 and 7 |
| SmartPlayer.SummarizesSkip | SmartPlayer.java:59-60 | an illegal column leaves the accumulators summarising the columns seen so far |
| SmartPlayer.SummarizesStep | SmartPlayer.java:60-66 | the strict `>` update keeps the leftmost legal column of maximal score among the columns seen |
| SmartPlayer.SummaryIsFirstBest | SmartPlayer.java:57-69 | after the last column the accumulators hold the leftmost best legal column and its true score, and (-1, -1) exactly when no column is legal |
| SmartPlayer.Trial | SmartPlayer.java:61-67 | a drop, a measurement and a pop of the same column give the grid back exactly, with the score of that trial drop |
| SmartPlayer.ScanFrom | SmartPlayer.java:59-69 | the drop/score/pop loop returns the grid unchanged, and the leftmost legal column of maximal score with that score (or -1, -1) |
| SmartPlayer.ScanAll | SmartPlayer.java:57-84 | a full scan leaves the shadow grid unchanged; it answers the leftmost best legal column, or (-1, -1) when no column is legal |
| SmartPlayer.FirstBestUnique | SmartPlayer.java:59-84 | the leftmost best column is unique |
| SmartPlayer.Recorded | SmartPlayer.java:54 | recording the human's column places ONE in the lowest empty cell of that column and keeps gravity |
| SmartPlayer.MakeMove | SmartPlayer.java:52-95 | the answer is legal after the human's piece is recorded; it is the AI's own leftmost best column when that scores at least the human's best, otherwise the human's best column; the shadow grid gains TWO there |
| GameLogic.EmptyGridSynced | GameLogic.java:39-47 | an empty grid with an empty shadow grid is a synchronised state |
| GameLogic.NewGame | GameLogic.java:35-48 | construction installs a random opponent; grid and shadow grid are empty and synchronised |
| GameLogic.Reset | GameLogic.java:103-118 | difficulty 1 installs the random opponent and anything else the heuristic one; grid and shadow grid are empty and synchronised |
| GameLogic.RoomForReply | GameLogic.java:68-79 | from a synchronised state, some column is still legal after the human's piece |
| GameLogic.Ask | GameLogic.java:76 | the reply is the installed strategy's makeMove answer: the random opponent answers exactly when its draws contain a legal column, the heuristic opponent always answers; from a synchronised state the column is legal on the controller's grid after the human's drop, and the new shadow grid equals that grid with TWO dropped there |
| GameLogic.FinishTurn | GameLogic.java:78-94 | TWO's drop is announced as a TWO win exactly on a line of four, and as a draw exactly when it does not win and fills the grid |
| GameLogic.SyncedAfterTurn | GameLogic.java:68-79 | a turn in which both players moved keeps gravity, the shadow grid equal to the grid, and the even empty count |
| GameLogic.AddPiece | GameLogic.java:59-95 | rejected exactly on an illegal column; a ONE win exactly when the human's drop makes a line of four, and then the opponent is not consulted; out of draws exactly when the human did not win and the random opponent found no legal draw; otherwise TWO goes into the column the opponent answered, the opponent's new shadow grid is installed, and the turn is announced as a win or a draw as above; every turn not won by ONE leaves a synchronised state |

## Left out

- The display (`updateBoard`, `gameOver`, `promptForOpponentDifficulty`) is I/O. The difficulty is an input and the announcement is a returned value.
- ControllerFactory.java only wires a `GameLogic` to a display and has no logic.
- `java.util.Random` is replaced by an injected sequence of draws. SmartPlayer's `Random` field is never used and is omitted.
- StupidPlayer.MakeMove: the retry loop is modelled only over the finite draws supplied. It is only probabilistically bounded, so its termination is not modelled; running out of draws is `None`.
- GameLogic.AddPiece: a legal move is modelled only from a synchronised state, where the shadow grid equals the grid and an even number of cells is empty. That state holds after construction, `reset`, and every turn not won by ONE. After a reported ONE win, the source keeps accepting moves while the opponent's shadow grid lacks the winning piece. Those later turns can index outside the grid, and the model does not cover them.
- The `Status` enum and the `ConnectController`, `ConnectPlayer` and `GameDisplay` interfaces are not part of this model. A local `Status` datatype and a `Player` datatype with one variant per strategy stand in for them.
- Array-index crashes are modelled as preconditions, not as exceptions. They arise from a drop into a full column, a pop of an empty column, and the heuristic opponent facing a grid with no legal column.
