/**
 The 7-wide, 6-tall Connect-Four grid and the operations every component
 repeats on its own copy of it: column validity, gravity drop, undo of the
 topmost piece, and the full-board test.

 Row 0 is the top row and row HEIGHT - 1 the bottom one, as in the source.
 A grid is an immutable value; an operation that the source performs by
 writing into its array returns the new grid instead.
 */
module Board {

  /** The state of one cell: the human's piece, the AI's piece, or empty. */
  datatype Status = ONE | TWO | NEITHER

  const WIDTH: int := 7
  const HEIGHT: int := 6

  /** A HEIGHT x WIDTH grid, indexed as b[row][col]. */
  type Grid = b: seq<seq<Status>> | |b| == HEIGHT && forall r | 0 <= r < HEIGHT :: |b[r]| == WIDTH
    witness seq(HEIGHT, _ => seq(WIDTH, _ => NEITHER))

  predicate InBounds(row: int, col: int) {
    0 <= row < HEIGHT && 0 <= col < WIDTH
  }

  /** The grid every component starts from: all cells empty. */
  function EmptyGrid(): (b: Grid)
    ensures forall r, c | InBounds(r, c) :: b[r][c] == NEITHER
  {
    seq(HEIGHT, _ => seq(WIDTH, _ => NEITHER))
  }

  /** The grid `b` with one cell overwritten. */
  function Set(b: Grid, row: int, col: int, s: Status): (b': Grid)
    requires InBounds(row, col)
    ensures b'[row][col] == s
    ensures forall r, c | InBounds(r, c) && (r != row || c != col) :: b'[r][c] == b[r][c]
  {
    b[row := b[row][col := s]]
  }

  lemma SetTwice(b: Grid, row: int, col: int, s: Status, t: Status)
    requires InBounds(row, col)
    ensures Set(Set(b, row, col, s), row, col, t) == Set(b, row, col, t)
  {
    assert b[row][col := s][col := t] == b[row][col := t];
  }

  lemma SetOwnValue(b: Grid, row: int, col: int)
    requires InBounds(row, col)
    ensures Set(b, row, col, b[row][col]) == b
  {
    assert b[row][col := b[row][col]] == b[row];
  }

  /**
   The gravity invariant: within every column an empty cell has only empty
   cells above it (smaller row indices).
   */
  ghost predicate Gravity(b: Grid) {
    forall c, r1, r2 | 0 <= c < WIDTH && 0 <= r1 <= r2 < HEIGHT :: b[r2][c] == NEITHER ==> b[r1][c] == NEITHER
  }

  /**
   isColumnValid: a column outside [0, 7) is never legal; inside, it is legal
   when its top cell is empty. ValidIffHasEmptyCell relates this to the
   column having room at all.
   */
  function IsColumnValid(b: Grid, col: int): (valid: bool)
    ensures !(0 <= col < WIDTH) ==> !valid
    ensures 0 <= col < WIDTH ==> (valid <==> b[0][col] == NEITHER)
  {
    0 <= col < WIDTH && b[0][col] == NEITHER
  }

  /** Some column of `b` accepts a piece. */
  ghost predicate HasValidColumn(b: Grid) {
    exists c | 0 <= c < WIDTH :: IsColumnValid(b, c)
  }

  /** Column `col` holds at least one piece. */
  ghost predicate Occupied(b: Grid, col: int)
    requires 0 <= col < WIDTH
  {
    exists r | 0 <= r < HEIGHT :: b[r][col] != NEITHER
  }

  /** On a gravity-respecting grid, a column is legal exactly when it still has an empty cell. */
  lemma ValidIffHasEmptyCell(b: Grid, col: int)
    requires Gravity(b)
    requires 0 <= col < WIDTH
    ensures IsColumnValid(b, col) <==> exists r | 0 <= r < HEIGHT :: b[r][col] == NEITHER
  {
    if r :| 0 <= r < HEIGHT && b[r][col] == NEITHER {
      assert b[0][col] == NEITHER;
    }
    if IsColumnValid(b, col) {
      assert b[0][col] == NEITHER;
    }
  }

  /**
   `b'` is `b` with `p` placed at (row, col), where row is the lowest empty
   cell of the column: every cell below it is occupied and no other cell
   changes.
   */
  ghost predicate Placed(b: Grid, b': Grid, row: int, col: int, p: Status) {
    && InBounds(row, col)
    && b[row][col] == NEITHER
    && (forall k | row < k < HEIGHT :: b[k][col] != NEITHER)
    && b'[row][col] == p
    && (forall r, c | InBounds(r, c) && (r != row || c != col) :: b'[r][c] == b[r][c])
  }

  /**
   The bottom-up scan of dropPiece: the largest row in [0, i] whose cell in
   `col` is empty, or -1 when there is none.
   */
  function LowestEmpty(b: Grid, col: int, i: int): (row: int)
    requires 0 <= col < WIDTH
    requires -1 <= i < HEIGHT
    ensures -1 <= row <= i
    ensures row >= 0 ==> b[row][col] == NEITHER
    ensures forall k | row < k <= i :: b[k][col] != NEITHER
    decreases i + 1
  {
    if i < 0 then -1
    else if b[i][col] == NEITHER then i
    else LowestEmpty(b, col, i - 1)
  }

  /** An answer that may be missing. */
  datatype Option<T> = None | Some(value: T)

  /** A strategy's answer: its shadow grid after both pieces are recorded, and its column. */
  datatype Move = Move(shadow: Grid, col: int)

  /** The source's dropPiece returns the row it wrote; the grid is returned alongside. */
  datatype Dropped = Dropped(board: Grid, row: int)

  /**
   Unguarded drop (GameLogic and SmartPlayer): the caller must pass a legal
   column, since on a full column the source writes to row -1.
   */
  function Drop(b: Grid, col: int, p: Status): (d: Dropped)
    requires IsColumnValid(b, col)
    ensures Placed(b, d.board, d.row, col, p)
    ensures Gravity(b) && p != NEITHER ==> Gravity(d.board)
  {
    var row := LowestEmpty(b, col, HEIGHT - 1);
    var b' := Set(b, row, col, p);
    assert Gravity(b) && p != NEITHER ==> Gravity(b') by {
      if Gravity(b) && p != NEITHER {
        forall c, r1, r2 | 0 <= c < WIDTH && 0 <= r1 <= r2 < HEIGHT && b'[r2][c] == NEITHER
          ensures b'[r1][c] == NEITHER
        {
          assert b[r2][c] == NEITHER;
        }
      }
    }
    Dropped(b', row)
  }

  /** Placing a piece determines the row: it is the lowest empty one. */
  lemma PlacedRowUnique(b: Grid, b1: Grid, b2: Grid, row1: int, row2: int, col: int, p: Status)
    requires Placed(b, b1, row1, col, p)
    requires Placed(b, b2, row2, col, p)
    ensures row1 == row2 && b1 == b2
  {
    forall r | 0 <= r < HEIGHT
      ensures b1[r] == b2[r]
    {
      assert forall c | 0 <= c < WIDTH :: b1[r][c] == b2[r][c];
    }
  }

  /**
   The top-down scan of popPiece: the smallest row in [i, HEIGHT) whose cell
   in `col` is occupied, or -1 when there is none.
   */
  function TopOccupied(b: Grid, col: int, i: int): (row: int)
    requires 0 <= col < WIDTH
    requires 0 <= i <= HEIGHT
    ensures row == -1 || i <= row < HEIGHT
    ensures row >= 0 ==> b[row][col] != NEITHER
    ensures forall k | i <= k < HEIGHT && (row == -1 || k < row) :: b[k][col] == NEITHER
    decreases HEIGHT - i
  {
    if i == HEIGHT then -1
    else if b[i][col] != NEITHER then i
    else TopOccupied(b, col, i + 1)
  }

  /**
   popPiece (SmartPlayer only): clears the topmost occupied cell of `col`.
   The column must hold a piece, since otherwise the source writes to row -1.
   */
  function Pop(b: Grid, col: int): (b': Grid)
    requires 0 <= col < WIDTH && Occupied(b, col)
    ensures exists row | 0 <= row < HEIGHT ::
      && b[row][col] != NEITHER
      && (forall k | 0 <= k < row :: b[k][col] == NEITHER)
      && b'[row][col] == NEITHER
      && (forall r, c | InBounds(r, c) && (r != row || c != col) :: b'[r][c] == b[r][c])
    ensures Gravity(b) ==> Gravity(b')
  {
    var row := TopOccupied(b, col, 0);
    Set(b, row, col, NEITHER)
  }

  /** Undo law: on a gravity-respecting grid, dropping a piece and popping the same column restores the grid. */
  lemma {:induction false} DropPopRoundTrip(b: Grid, col: int, p: Status)
    requires Gravity(b)
    requires IsColumnValid(b, col)
    requires p != NEITHER
    ensures Occupied(Drop(b, col, p).board, col)
    ensures Pop(Drop(b, col, p).board, col) == b
  {
    var d := Drop(b, col, p);
    assert d.board[d.row][col] != NEITHER;
    var top := TopOccupied(d.board, col, 0);
    assert top == d.row by {
      forall k | 0 <= k < d.row
        ensures d.board[k][col] == NEITHER
      {
        assert b[k][col] == NEITHER;
      }
    }
    SetTwice(b, d.row, col, p, NEITHER);
    SetOwnValue(b, d.row, col);
  }

  /**
   The nested scan of isFull, in row-major order from (i, j): true exactly
   when no cell at or after (i, j) is empty.
   */
  function FullFrom(b: Grid, i: int, j: int): (full: bool)
    requires 0 <= i <= HEIGHT && 0 <= j <= WIDTH
    ensures full <==> forall r, c | InBounds(r, c) && (r > i || (r == i && c >= j)) :: b[r][c] != NEITHER
    decreases HEIGHT - i, WIDTH - j
  {
    if i == HEIGHT then true
    else if j == WIDTH then FullFrom(b, i + 1, 0)
    else if b[i][j] == NEITHER then false
    else FullFrom(b, i, j + 1)
  }

  /** isFull: no cell of the grid is empty. */
  function IsFull(b: Grid): (full: bool)
    ensures full <==> forall r, c | InBounds(r, c) :: b[r][c] != NEITHER
  {
    FullFrom(b, 0, 0)
  }

  /** On a gravity-respecting grid, the board is full exactly when no column is legal. */
  lemma FullIffNoValidColumn(b: Grid)
    requires Gravity(b)
    ensures IsFull(b) <==> !HasValidColumn(b)
  {
    if !IsFull(b) {
      var r, c :| InBounds(r, c) && b[r][c] == NEITHER;
      assert IsColumnValid(b, c);
    }
    if HasValidColumn(b) {
      var c :| 0 <= c < WIDTH && IsColumnValid(b, c);
      assert b[0][c] == NEITHER;
    }
  }

  /** Number of empty cells in one row. */
  function RowEmpties(s: seq<Status>): (n: nat)
    ensures n <= |s|
  {
    if |s| == 0 then 0
    else (if s[0] == NEITHER then 1 else 0) + RowEmpties(s[1..])
  }

  /** Number of empty cells in a list of rows. */
  function Empties(rows: seq<seq<Status>>): nat {
    if |rows| == 0 then 0 else RowEmpties(rows[0]) + Empties(rows[1..])
  }

  /** Number of empty cells of the grid. */
  function EmptyCount(b: Grid): nat {
    Empties(b)
  }

  lemma {:induction false} RowEmptiesZero(s: seq<Status>)
    ensures RowEmpties(s) == 0 <==> forall k | 0 <= k < |s| :: s[k] != NEITHER
  {
    if |s| > 0 {
      RowEmptiesZero(s[1..]);
      assert forall k | 1 <= k < |s| :: s[k] == s[1..][k - 1];
    }
  }

  lemma {:induction false} EmptiesZero(rows: seq<seq<Status>>)
    ensures Empties(rows) == 0 <==> forall i, k | 0 <= i < |rows| && 0 <= k < |rows[i]| :: rows[i][k] != NEITHER
  {
    if |rows| > 0 {
      RowEmptiesZero(rows[0]);
      EmptiesZero(rows[1..]);
      assert forall i | 1 <= i < |rows| :: rows[i] == rows[1..][i - 1];
    }
  }

  /** The grid has no empty cell exactly when it is full. */
  lemma FullIffNoEmpties(b: Grid)
    ensures IsFull(b) <==> EmptyCount(b) == 0
  {
    EmptiesZero(b);
  }

  lemma {:induction false} RowEmptiesUpdate(s: seq<Status>, k: int, x: Status)
    requires 0 <= k < |s|
    ensures RowEmpties(s[k := x]) + (if s[k] == NEITHER then 1 else 0)
         == RowEmpties(s) + (if x == NEITHER then 1 else 0)
  {
    if k > 0 {
      RowEmptiesUpdate(s[1..], k - 1, x);
      assert s[k := x][1..] == s[1..][k - 1 := x];
    } else {
      assert s[k := x][1..] == s[1..];
    }
  }

  lemma {:induction false} EmptiesUpdate(rows: seq<seq<Status>>, i: int, row: seq<Status>)
    requires 0 <= i < |rows|
    ensures Empties(rows[i := row]) + RowEmpties(rows[i]) == Empties(rows) + RowEmpties(row)
  {
    if i > 0 {
      EmptiesUpdate(rows[1..], i - 1, row);
      assert rows[i := row][1..] == rows[1..][i - 1 := row];
    } else {
      assert rows[i := row][1..] == rows[1..];
    }
  }

  lemma {:induction false} RowEmptiesAllEmpty(s: seq<Status>)
    requires forall k | 0 <= k < |s| :: s[k] == NEITHER
    ensures RowEmpties(s) == |s|
  {
    if |s| > 0 {
      RowEmptiesAllEmpty(s[1..]);
    }
  }

  lemma {:induction false} EmptiesAllEmpty(rows: seq<seq<Status>>)
    requires forall i | 0 <= i < |rows| :: rows[i] == seq(WIDTH, _ => NEITHER)
    ensures Empties(rows) == |rows| * WIDTH
  {
    if |rows| > 0 {
      RowEmptiesAllEmpty(rows[0]);
      EmptiesAllEmpty(rows[1..]);
    }
  }

  /** A fresh grid has all HEIGHT * WIDTH = 42 cells empty. */
  lemma EmptyGridCount()
    ensures EmptyCount(EmptyGrid()) == HEIGHT * WIDTH
  {
    EmptiesAllEmpty(EmptyGrid());
  }

  /** Filling one empty cell with a piece lowers the empty count by exactly one. */
  lemma FillLowersEmptyCount(b: Grid, row: int, col: int, p: Status)
    requires InBounds(row, col)
    requires b[row][col] == NEITHER && p != NEITHER
    ensures EmptyCount(Set(b, row, col, p)) + 1 == EmptyCount(b)
  {
    RowEmptiesUpdate(b[row], col, p);
    EmptiesUpdate(b, row, b[row][col := p]);
  }

  /** Every drop of a piece fills one empty cell. */
  lemma PlacedLowersEmptyCount(b: Grid, b': Grid, row: int, col: int, p: Status)
    requires Placed(b, b', row, col, p) && p != NEITHER
    ensures EmptyCount(b') + 1 == EmptyCount(b)
  {
    var s := Set(b, row, col, p);
    forall r | 0 <= r < HEIGHT
      ensures b'[r] == s[r]
    {
      assert forall c | 0 <= c < WIDTH :: b'[r][c] == s[r][c];
    }
    assert b' == s;
    FillLowersEmptyCount(b, row, col, p);
  }
}
