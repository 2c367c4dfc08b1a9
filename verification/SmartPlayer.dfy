/**
 The one-ply heuristic opponent. After recording the human's piece on its
 shadow grid it scans every legal column twice, once with the human's
 piece and once with its own: drop, measure the longest run through the
 dropped cell, pop. It plays its own best column when that scores at
 least as well as the human's best one, and blocks the human's best column
 otherwise.
 */
module SmartPlayer {
  import opened Board
  import opened Win

  /** The value of a trial drop of `p` in `col`: the longest run it would make. */
  function Score(b: Grid, p: Status, col: int): (s: int)
    requires IsColumnValid(b, col)
    ensures 1 <= s <= WIDTH
  {
    var d := Drop(b, col, p);
    MaxConnected(d.board, d.row, col)
  }

  /**
   `c` is the scan's intended answer: a legal column with the highest score,
   and the leftmost such one.
   */
  ghost predicate FirstBest(b: Grid, p: Status, c: int) {
    && IsColumnValid(b, c)
    && (forall c' {:trigger Score(b, p, c')} | 0 <= c' < WIDTH && IsColumnValid(b, c') :: Score(b, p, c') <= Score(b, p, c))
    && (forall c' {:trigger Score(b, p, c')} | 0 <= c' < c && IsColumnValid(b, c') :: Score(b, p, c') < Score(b, p, c))
  }

  /** `s` lists the trial score of `p` in every legal column of `b`; the other entries are irrelevant. */
  ghost predicate ScoresOf(b: Grid, p: Status, s: seq<int>) {
    && |s| == WIDTH
    && forall c {:trigger Score(b, p, c)} | 0 <= c < WIDTH && IsColumnValid(b, c) :: s[c] == Score(b, p, c)
  }

  /** The table of trial scores the scan loop computes one column at a time. */
  ghost function TrialScores(b: Grid, p: Status): (s: seq<int>)
    ensures ScoresOf(b, p, s)
  {
    seq(WIDTH, c => if 0 <= c < WIDTH && IsColumnValid(b, c) then Score(b, p, c) else 0)
  }

  /** No column in [0, n) is legal. */
  ghost predicate NoneValid(b: Grid, n: int) {
    forall c | 0 <= c < n :: !IsColumnValid(b, c)
  }

  /** `bestCol` is the leftmost legal column among [0, n) of highest score in `s`, scoring `bestScore`. */
  ghost predicate Leads(b: Grid, s: seq<int>, n: int, bestCol: int, bestScore: int)
    requires n <= |s|
  {
    && 0 <= bestCol < n
    && IsColumnValid(b, bestCol)
    && bestScore == s[bestCol]
    && (forall c | 0 <= c < n && IsColumnValid(b, c) :: s[c] <= bestScore)
    && (forall c | 0 <= c < bestCol && IsColumnValid(b, c) :: s[c] < bestScore)
  }

  /**
   The scan's accumulators after columns [0, n): (-1, -1) when none of them
   is legal, otherwise the leftmost best legal column among them and its score.
   */
  ghost predicate Summarizes(b: Grid, s: seq<int>, n: int, bestCol: int, bestScore: int)
    requires n <= |s|
  {
    || (NoneValid(b, n) && bestCol == -1 && bestScore == -1)
    || (!NoneValid(b, n) && Leads(b, s, n, bestCol, bestScore))
  }

  /** An illegal column leaves the accumulators as they are. */
  lemma SummarizesSkip(b: Grid, s: seq<int>, n: int, bestCol: int, bestScore: int)
    requires 0 <= n < |s| && !IsColumnValid(b, n)
    requires Summarizes(b, s, n, bestCol, bestScore)
    ensures Summarizes(b, s, n + 1, bestCol, bestScore)
  {
    if NoneValid(b, n) {
      assert NoneValid(b, n + 1);
    } else {
      assert !NoneValid(b, n + 1);
      assert Leads(b, s, n + 1, bestCol, bestScore);
    }
  }

  /**
   A legal column replaces the accumulators only when its score is strictly
   greater, so they keep the leftmost best column.
   */
  lemma SummarizesStep(b: Grid, s: seq<int>, n: int, bestCol: int, bestScore: int)
    requires 0 <= n < |s| && IsColumnValid(b, n)
    requires s[n] >= 1
    requires Summarizes(b, s, n, bestCol, bestScore)
    ensures s[n] > bestScore ==> Summarizes(b, s, n + 1, n, s[n])
    ensures s[n] <= bestScore ==> Summarizes(b, s, n + 1, bestCol, bestScore)
  {
    assert !NoneValid(b, n + 1);
    if s[n] > bestScore {
      assert Leads(b, s, n + 1, n, s[n]) by {
        if !NoneValid(b, n) {
          assert Leads(b, s, n, bestCol, bestScore);
        }
      }
    } else {
      assert Leads(b, s, n, bestCol, bestScore);
      assert Leads(b, s, n + 1, bestCol, bestScore);
    }
  }

  /**
   After the last column the accumulators answer the leftmost best column
   of the true trial scores, or (-1, -1) exactly when no column is legal.
   */
  lemma SummaryIsFirstBest(b: Grid, p: Status, s: seq<int>, bestCol: int, bestScore: int)
    requires ScoresOf(b, p, s)
    requires Summarizes(b, s, WIDTH, bestCol, bestScore)
    ensures HasValidColumn(b) ==> FirstBest(b, p, bestCol) && bestScore == Score(b, p, bestCol)
    ensures !HasValidColumn(b) ==> bestCol == -1 && bestScore == -1
  {
    if NoneValid(b, WIDTH) {
      assert !HasValidColumn(b);
    } else {
      assert s[bestCol] == Score(b, p, bestCol);
      forall c | 0 <= c < WIDTH && IsColumnValid(b, c)
        ensures Score(b, p, c) <= bestScore
        ensures c < bestCol ==> Score(b, p, c) < bestScore
      {
        assert s[c] == Score(b, p, c);
      }
    }
  }

  /** The scan's accumulators and the shadow grid it leaves behind. */
  datatype Scan = Scan(board: Grid, col: int, score: int)

  /**
   One trial of the scan loop: drop `p` into `col`, score the dropped cell,
   pop the piece again. The grid comes back exactly as it was.
   */
  function Trial(b: Grid, p: Status, col: int): (r: (Grid, int))
    requires Gravity(b) && p != NEITHER
    requires IsColumnValid(b, col)
    ensures r.0 == b
    ensures r.1 == Score(b, p, col)
  {
    var d := Drop(b, col, p);
    var score := MaxConnected(d.board, d.row, col);
    DropPopRoundTrip(b, col, p);
    (Pop(d.board, col), score)
  }

  /**
   One scan loop from column `col` on: for every legal column, drop `p`,
   score the dropped cell, keep the column when its score is strictly
   greater than the best so far, and pop the piece again. The ghost table
   `s` names the scores the loop is going to find.
   */
  function ScanFrom(b: Grid, p: Status, col: int, bestCol: int, bestScore: int, ghost s: seq<int>): (r: Scan)
    requires Gravity(b) && p != NEITHER
    requires ScoresOf(b, p, s)
    requires 0 <= col <= WIDTH
    requires Summarizes(b, s, col, bestCol, bestScore)
    ensures r.board == b
    ensures Summarizes(b, s, WIDTH, r.col, r.score)
    decreases WIDTH - col
  {
    if col == WIDTH then Scan(b, bestCol, bestScore)
    else if IsColumnValid(b, col) then
      var (restored, score) := Trial(b, p, col);
      assert score == s[col];
      SummarizesStep(b, s, col, bestCol, bestScore);
      if score > bestScore then ScanFrom(restored, p, col + 1, col, score, s)
      else ScanFrom(restored, p, col + 1, bestCol, bestScore, s)
    else
      SummarizesSkip(b, s, col, bestCol, bestScore);
      ScanFrom(b, p, col + 1, bestCol, bestScore, s)
  }

  /**
   A full scan for `p`: the shadow grid comes back unchanged, and the answer
   is the leftmost best legal column, or (-1, -1) when no column is legal.
   */
  function ScanAll(b: Grid, p: Status): (r: Scan)
    requires Gravity(b) && p != NEITHER
    ensures r.board == b
    ensures HasValidColumn(b) ==> FirstBest(b, p, r.col) && r.score == Score(b, p, r.col)
    ensures !HasValidColumn(b) ==> r.col == -1 && r.score == -1
  {
    var r := ScanFrom(b, p, 0, -1, -1, TrialScores(b, p));
    SummaryIsFirstBest(b, p, TrialScores(b, p), r.col, r.score);
    r
  }

  /** There is at most one leftmost best column. */
  lemma FirstBestUnique(b: Grid, p: Status, c1: int, c2: int)
    requires FirstBest(b, p, c1) && FirstBest(b, p, c2)
    ensures c1 == c2
  {
    assert Score(b, p, c1) <= Score(b, p, c2) <= Score(b, p, c1);
  }

  /** The grid after the human's piece is recorded on the shadow grid (an unguarded drop). */
  function Recorded(shadow: Grid, lastCol: int): (b: Grid)
    requires IsColumnValid(shadow, lastCol)
    ensures exists row | 0 <= row < HEIGHT :: Placed(shadow, b, row, lastCol, ONE)
    ensures Gravity(shadow) ==> Gravity(b)
  {
    Drop(shadow, lastCol, ONE).board
  }

  /**
   makeMove. The human's column must be legal on the shadow grid and leave a
   legal column behind: otherwise the source drops into a full column or
   into column -1, both outside the grid.
   */
  function MakeMove(shadow: Grid, lastCol: int): (m: Move)
    requires Gravity(shadow)
    requires IsColumnValid(shadow, lastCol)
    requires HasValidColumn(Recorded(shadow, lastCol))
    ensures 0 <= m.col < WIDTH && IsColumnValid(Recorded(shadow, lastCol), m.col)
    ensures Placed(Recorded(shadow, lastCol), m.shadow, Drop(Recorded(shadow, lastCol), m.col, TWO).row, m.col, TWO)
    ensures Gravity(m.shadow)
    ensures FirstBest(Recorded(shadow, lastCol), TWO, m.col) || FirstBest(Recorded(shadow, lastCol), ONE, m.col)
    ensures forall self, opp | FirstBest(Recorded(shadow, lastCol), TWO, self) && FirstBest(Recorded(shadow, lastCol), ONE, opp) ::
      m.col == if Score(Recorded(shadow, lastCol), TWO, self) >= Score(Recorded(shadow, lastCol), ONE, opp) then self else opp
  {
    var after := Recorded(shadow, lastCol);
    var opponent := ScanAll(after, ONE);
    var own := ScanAll(opponent.board, TWO);
    var col := if own.score >= opponent.score then own.col else opponent.col;
    forall self, opp | FirstBest(after, TWO, self) && FirstBest(after, ONE, opp)
      ensures col == if Score(after, TWO, self) >= Score(after, ONE, opp) then self else opp
    {
      FirstBestUnique(after, TWO, self, own.col);
      FirstBestUnique(after, ONE, opp, opponent.col);
    }
    Move(Drop(own.board, col, TWO).board, col)
  }
}
