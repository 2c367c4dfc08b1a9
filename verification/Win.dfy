/**
 Win detection through a just-filled cell. The source scans each of four
 axes outward from the cell in both directions, stopping at the first cell
 that is off the grid or holds a different status. GameLogic tests each
 axis total against 4; SmartPlayer keeps the largest total instead.
 */
module Win {
  import opened Board

  /** The four axes, in the order the source checks them. */
  datatype Axis = Horizontal | Vertical | AntiDiagonal | Diagonal

  /**
   The cell `off` steps from (row, col) along `a`. Negative offsets go left
   or up: AntiDiagonal runs top-left to bottom-right, Diagonal runs top-right
   to bottom-left.
   */
  function Along(a: Axis, row: int, col: int, off: int): (int, int) {
    match a
    case Horizontal => (row, col + off)
    case Vertical => (row + off, col)
    case AntiDiagonal => (row + off, col + off)
    case Diagonal => (row + off, col - off)
  }

  /** The cell `off` steps along `a` from (row, col) is on the grid and holds `p`. */
  predicate MatchesAt(b: Grid, p: Status, a: Axis, row: int, col: int, off: int) {
    var (r, c) := Along(a, row, col, off);
    InBounds(r, c) && b[r][c] == p
  }

  /**
   One counting loop of the source: the number of consecutive cells holding
   `p` at offsets off, off + step, off + 2 * step, ... along `a`.
   */
  function Run(b: Grid, p: Status, a: Axis, row: int, col: int, off: int, step: int): (n: nat)
    requires InBounds(row, col)
    requires step == 1 || step == -1
    ensures n > 0 <==> MatchesAt(b, p, a, row, col, off)
    decreases if step == 1 then WIDTH - off else WIDTH + off
  {
    if MatchesAt(b, p, a, row, col, off) then 1 + Run(b, p, a, row, col, off + step, step)
    else 0
  }

  /**
   The per-axis count of both isConnectFour and getMaxNumOfConnectedPieces:
   the backward loop starts at the cell itself, the forward loop one step
   past it, so the cell is counted once.
   */
  function AxisCount(b: Grid, a: Axis, row: int, col: int): (n: nat)
    requires InBounds(row, col)
    ensures n >= 1
  {
    var p := b[row][col];
    Run(b, p, a, row, col, 0, -1) + Run(b, p, a, row, col, 1, 1)
  }

  /**
   Reference definition of a win: along axis `a` there is a window of four
   consecutive cells, at offsets -k to 3 - k from (row, col), all holding
   the status of (row, col).
   */
  ghost predicate Window(b: Grid, a: Axis, row: int, col: int, k: int)
    requires InBounds(row, col)
  {
    forall off | -k <= off < 4 - k :: MatchesAt(b, b[row][col], a, row, col, off)
  }

  /** Some axis has at least four same-status cells in a row through (row, col). */
  ghost predicate LineOfFour(b: Grid, row: int, col: int)
    requires InBounds(row, col)
  {
    exists a: Axis, k | 0 <= k < 4 :: Window(b, a, row, col, k)
  }

  /** The offset `j` steps from `off` in direction `step`. */
  function Beyond(off: int, j: int, step: int): int {
    if step == 1 then off + j else off - j
  }

  /** A run is at least n long exactly when its first n cells all match. */
  lemma {:induction false} RunAtLeast(b: Grid, p: Status, a: Axis, row: int, col: int, off: int, step: int, n: nat)
    requires InBounds(row, col)
    requires step == 1 || step == -1
    ensures Run(b, p, a, row, col, off, step) >= n <==>
            forall j | 0 <= j < n :: MatchesAt(b, p, a, row, col, Beyond(off, j, step))
    decreases n
  {
    if n > 0 {
      assert Beyond(off, 0, step) == off;
      if MatchesAt(b, p, a, row, col, off) {
        var next := off + step;
        RunAtLeast(b, p, a, row, col, next, step, n - 1);
        assert forall j | 1 <= j < n :: Beyond(off, j, step) == Beyond(next, j - 1, step);
        if forall j | 0 <= j < n :: MatchesAt(b, p, a, row, col, Beyond(off, j, step)) {
          forall j | 0 <= j < n - 1
            ensures MatchesAt(b, p, a, row, col, Beyond(next, j, step))
          {
            assert Beyond(next, j, step) == Beyond(off, j + 1, step);
          }
        }
      }
    }
  }

  /** The axis total reaches four exactly when a window of four on that axis covers the cell. */
  lemma AxisCountFour(b: Grid, a: Axis, row: int, col: int)
    requires InBounds(row, col)
    ensures AxisCount(b, a, row, col) >= 4 <==> exists k | 0 <= k < 4 :: Window(b, a, row, col, k)
  {
    var p := b[row][col];
    var back := Run(b, p, a, row, col, 0, -1);
    var fwd := Run(b, p, a, row, col, 1, 1);
    assert MatchesAt(b, p, a, row, col, 0);
    if back + fwd >= 4 {
      var k: int := if back >= 4 then 3 else back - 1;
      RunAtLeast(b, p, a, row, col, 0, -1, k + 1);
      RunAtLeast(b, p, a, row, col, 1, 1, 3 - k);
      forall off | -k <= off < 4 - k
        ensures MatchesAt(b, p, a, row, col, off)
      {
        if off <= 0 {
          assert off == Beyond(0, -off, -1);
        } else {
          assert off == Beyond(1, off - 1, 1);
        }
      }
      assert Window(b, a, row, col, k);
    }
    if k: int :| 0 <= k < 4 && Window(b, a, row, col, k) {
      RunAtLeast(b, p, a, row, col, 0, -1, k + 1);
      RunAtLeast(b, p, a, row, col, 1, 1, 3 - k);
      forall i: int | 0 <= i < k + 1
        ensures MatchesAt(b, p, a, row, col, Beyond(0, i, -1))
      {
        assert Beyond(0, i, -1) == -i;
      }
      forall i: int | 0 <= i < 3 - k
        ensures MatchesAt(b, p, a, row, col, Beyond(1, i, 1))
      {
        assert Beyond(1, i, 1) == 1 + i;
      }
    }
  }

  /** A line of four exists exactly when some axis total reaches four. */
  lemma LineOfFourIffSomeAxis(b: Grid, row: int, col: int)
    requires InBounds(row, col)
    ensures LineOfFour(b, row, col) <==> exists a: Axis :: AxisCount(b, a, row, col) >= 4
  {
    if LineOfFour(b, row, col) {
      var a: Axis, k: int :| 0 <= k < 4 && Window(b, a, row, col, k);
      AxisCountFour(b, a, row, col);
    }
    if a: Axis :| AxisCount(b, a, row, col) >= 4 {
      AxisCountFour(b, a, row, col);
    }
  }

  /** isConnectFour: the axes are tested in order and the first total of four or more wins. */
  function IsConnectFour(b: Grid, row: int, col: int): (won: bool)
    requires InBounds(row, col)
    ensures won <==> LineOfFour(b, row, col)
  {
    LineOfFourIffSomeAxis(b, row, col);
    if AxisCount(b, Horizontal, row, col) >= 4 then true
    else if AxisCount(b, Vertical, row, col) >= 4 then true
    else if AxisCount(b, AntiDiagonal, row, col) >= 4 then true
    else if AxisCount(b, Diagonal, row, col) >= 4 then true
    else false
  }

  /**
   The coordinate that bounds a run along `a`: the column for Horizontal,
   the row otherwise, with its grid extent.
   */
  function Lead(a: Axis, row: int, col: int, off: int): int {
    var (r, c) := Along(a, row, col, off);
    if a == Horizontal then c else r
  }

  function Extent(a: Axis): int {
    if a == Horizontal then WIDTH else HEIGHT
  }

  /** A run cannot leave the grid: it is bounded by the cells left in its direction. */
  lemma {:induction false} RunBound(b: Grid, p: Status, a: Axis, row: int, col: int, off: int, step: int)
    requires InBounds(row, col)
    requires step == 1 || step == -1
    ensures step == 1 ==> Run(b, p, a, row, col, off, step) <= if Lead(a, row, col, off) < Extent(a) then Extent(a) - Lead(a, row, col, off) else 0
    ensures step == -1 ==> Run(b, p, a, row, col, off, step) <= if Lead(a, row, col, off) >= 0 then Lead(a, row, col, off) + 1 else 0
    decreases if step == 1 then WIDTH - off else WIDTH + off
  {
    if MatchesAt(b, p, a, row, col, off) {
      RunBound(b, p, a, row, col, off + step, step);
    }
  }

  /** Every axis total is between 1 (the cell itself) and 7 (the grid width). */
  lemma AxisCountRange(b: Grid, a: Axis, row: int, col: int)
    requires InBounds(row, col)
    ensures 1 <= AxisCount(b, a, row, col) <= WIDTH
  {
    var p := b[row][col];
    assert MatchesAt(b, p, a, row, col, 0);
    RunBound(b, p, a, row, col, 0, -1);
    RunBound(b, p, a, row, col, 1, 1);
  }

  /**
   getMaxNumOfConnectedPieces: the largest axis total, computed as the
   source does, from -1 with a strict comparison per axis.
   */
  function MaxConnected(b: Grid, row: int, col: int): (m: int)
    requires InBounds(row, col)
    ensures 1 <= m <= WIDTH
    ensures AxisCount(b, Horizontal, row, col) <= m && AxisCount(b, Vertical, row, col) <= m
    ensures AxisCount(b, AntiDiagonal, row, col) <= m && AxisCount(b, Diagonal, row, col) <= m
    ensures || m == AxisCount(b, Horizontal, row, col) || m == AxisCount(b, Vertical, row, col)
            || m == AxisCount(b, AntiDiagonal, row, col) || m == AxisCount(b, Diagonal, row, col)
  {
    AxisCountRange(b, Horizontal, row, col);
    AxisCountRange(b, Vertical, row, col);
    AxisCountRange(b, AntiDiagonal, row, col);
    AxisCountRange(b, Diagonal, row, col);
    var m0 := -1;
    var h := AxisCount(b, Horizontal, row, col);
    var m1 := if h > m0 then h else m0;
    var v := AxisCount(b, Vertical, row, col);
    var m2 := if v > m1 then v else m1;
    var ad := AxisCount(b, AntiDiagonal, row, col);
    var m3 := if ad > m2 then ad else m2;
    var d := AxisCount(b, Diagonal, row, col);
    if d > m3 then d else m3
  }

  /** On the same grid and cell, the largest total reaches four exactly when isConnectFour holds. */
  lemma MaxConnectedAgreesWithConnectFour(b: Grid, row: int, col: int)
    requires InBounds(row, col)
    ensures MaxConnected(b, row, col) >= 4 <==> IsConnectFour(b, row, col)
  {
    LineOfFourIffSomeAxis(b, row, col);
  }

  /**
   Completing a window wins: when the three other cells of a window of four
   through the cell a drop fills already hold the dropped piece, the drop
   connects four (vertically: three pieces stacked under the new one;
   horizontally: three in the same row beside it, and so on).
   */
  lemma CompletingWindowWins(b: Grid, col: int, p: Status, a: Axis, k: int)
    requires IsColumnValid(b, col)
    requires 0 <= k < 4
    requires forall off | -k <= off < 4 - k && off != 0 :: MatchesAt(b, p, a, Drop(b, col, p).row, col, off)
    ensures IsConnectFour(Drop(b, col, p).board, Drop(b, col, p).row, col)
  {
    var d := Drop(b, col, p);
    forall off | -k <= off < 4 - k
      ensures MatchesAt(d.board, p, a, d.row, col, off)
    {
      if off != 0 {
        assert MatchesAt(b, p, a, d.row, col, off);
      }
    }
    assert Window(d.board, a, d.row, col, k);
  }
}
