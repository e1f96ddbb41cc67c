/** The positional evaluation: every disc scores the weight of its square,
    positive for Black and negative for White. */
module Evaluation {
  import opened Board

  /** Square weights: corners are prized, the squares next to them avoided. */
  const WEIGHTS: seq<seq<int>> := [
    [100, -20, 10,  5,  5, 10, -20, 100],
    [-20, -50, -2, -2, -2, -2, -50, -20],
    [ 10,  -2,  5,  1,  1,  5,  -2,  10],
    [  5,  -2,  1,  0,  0,  1,  -2,   5],
    [  5,  -2,  1,  0,  0,  1,  -2,   5],
    [ 10,  -2,  5,  1,  1,  5,  -2,  10],
    [-20, -50, -2, -2, -2, -2, -50, -20],
    [100, -20, 10,  5,  5, 10, -20, 100]
  ]

  /** A bound on every score: 64 squares of weight at most 100 each. */
  const MAX_SCORE := 6400

  /** The weighted sum over the first c squares of row r. */
  function RowScore(b: Grid, r: int, c: nat): int
    requires ValidBoard(b) && 0 <= r < 8 && c <= 8
  {
    if c == 0 then 0 else RowScore(b, r, c - 1) + b[r][c - 1] * WEIGHTS[r][c - 1]
  }

  /** The weighted sum over the first r rows. */
  function RowsScore(b: Grid, r: nat): int
    requires ValidBoard(b) && r <= 8
  {
    if r == 0 then 0 else RowsScore(b, r - 1) + RowScore(b, r - 1, 8)
  }

  /** The value of a position for Black. */
  function Score(b: Grid): int
    requires ValidBoard(b)
  {
    RowsScore(b, 8)
  }

  /** evaluate: the weighted sum, accumulated row by row. */
  method Evaluate(b: Grid) returns (score: int)
    requires ValidBoard(b)
    ensures score == Score(b)
    ensures -MAX_SCORE <= score <= MAX_SCORE
  {
    score := 0;
    for r := 0 to 8
      invariant score == RowsScore(b, r)
    {
      for c := 0 to 8
        invariant score == RowsScore(b, r) + RowScore(b, r, c)
      {
        score := score + b[r][c] * WEIGHTS[r][c];
      }
    }
    ScoreBounded(b);
  }

  /** Every weight lies between -100 and 100. */
  lemma WeightsBounded(r: int, c: int)
    requires InBounds(r, c)
    ensures -100 <= WEIGHTS[r][c] <= 100
  {
    assert |WEIGHTS[r]| == 8;
  }

  /** The weights are symmetric under both mirror images and under
      reflection in the main diagonal, like the board itself. */
  lemma WeightsSymmetric(r: int, c: int)
    requires InBounds(r, c)
    ensures WEIGHTS[r][c] == WEIGHTS[7 - r][c]
    ensures WEIGHTS[r][c] == WEIGHTS[r][7 - c]
    ensures WEIGHTS[r][c] == WEIGHTS[c][r]
  {
  }

  /** A single square contributes at most 100 either way. */
  lemma SquareBounded(b: Grid, r: int, c: int)
    requires ValidBoard(b) && InBounds(r, c)
    ensures -100 <= b[r][c] * WEIGHTS[r][c] <= 100
  {
    WeightsBounded(r, c);
  }

  lemma {:induction false} RowScoreBounded(b: Grid, r: int, c: nat)
    requires ValidBoard(b) && 0 <= r < 8 && c <= 8
    ensures -100 * c <= RowScore(b, r, c) <= 100 * c
  {
    if c > 0 {
      RowScoreBounded(b, r, c - 1);
      SquareBounded(b, r, c - 1);
    }
  }

  lemma {:induction false} RowsScoreBounded(b: Grid, r: nat)
    requires ValidBoard(b) && r <= 8
    ensures -800 * r <= RowsScore(b, r) <= 800 * r
  {
    if r > 0 {
      RowsScoreBounded(b, r - 1);
      RowScoreBounded(b, r - 1, 8);
    }
  }

  /** No board scores beyond MAX_SCORE in either direction. */
  lemma ScoreBounded(b: Grid)
    requires ValidBoard(b)
    ensures -MAX_SCORE <= Score(b) <= MAX_SCORE
  {
    RowsScoreBounded(b, 8);
  }

  /** The board with every disc's colour swapped. */
  function Swapped(b: Grid): (s: Grid)
    requires ValidBoard(b)
    ensures ValidBoard(s)
  {
    seq(8, i requires 0 <= i < 8 => seq(8, j requires 0 <= j < 8 => -b[i][j]))
  }

  lemma SquareSwapped(b: Grid, r: int, c: int)
    requires ValidBoard(b) && InBounds(r, c)
    ensures Swapped(b)[r][c] * WEIGHTS[r][c] == -(b[r][c] * WEIGHTS[r][c])
  {
    var w := WEIGHTS[r][c];
    if b[r][c] == BLACK {
      assert Swapped(b)[r][c] * w == -w;
    } else if b[r][c] == WHITE {
      assert Swapped(b)[r][c] * w == w;
    }
  }

  lemma {:induction false} RowScoreSwapped(b: Grid, r: int, c: nat)
    requires ValidBoard(b) && 0 <= r < 8 && c <= 8
    ensures RowScore(Swapped(b), r, c) == -RowScore(b, r, c)
  {
    if c > 0 {
      RowScoreSwapped(b, r, c - 1);
      SquareSwapped(b, r, c - 1);
    }
  }

  lemma {:induction false} RowsScoreSwapped(b: Grid, r: nat)
    requires ValidBoard(b) && r <= 8
    ensures RowsScore(Swapped(b), r) == -RowsScore(b, r)
  {
    if r > 0 {
      RowsScoreSwapped(b, r - 1);
      RowScoreSwapped(b, r - 1, 8);
    }
  }

  /** Rows that agree give the same row sum. */
  lemma {:induction false} RowScoreSameRow(b: Grid, b2: Grid, r: int, n: nat)
    requires ValidBoard(b) && ValidBoard(b2) && 0 <= r < 8 && n <= 8 && b2[r] == b[r]
    ensures RowScore(b2, r, n) == RowScore(b, r, n)
  {
    if n > 0 {
      RowScoreSameRow(b, b2, r, n - 1);
    }
  }

  /** A row that differs from another only in column c: the row sums differ
      by the change in that square's contribution. */
  lemma {:induction false} RowScoreOneCell(b: Grid, b2: Grid, r: int, c: int, n: nat)
    requires ValidBoard(b) && ValidBoard(b2) && InBounds(r, c) && n <= 8
    requires forall j :: 0 <= j < 8 && j != c ==> b2[r][j] == b[r][j]
    ensures RowScore(b2, r, n) ==
      RowScore(b, r, n) + (if c < n then b2[r][c] * WEIGHTS[r][c] - b[r][c] * WEIGHTS[r][c] else 0)
  {
    if n > 0 {
      RowScoreOneCell(b, b2, r, c, n - 1);
    }
  }

  /** Boards that differ only in square (r, c): the scores differ by the
      change in that square's contribution. */
  lemma {:induction false} RowsScoreOneCell(b: Grid, b2: Grid, r: int, c: int, n: nat)
    requires ValidBoard(b) && ValidBoard(b2) && InBounds(r, c) && n <= 8
    requires forall i :: 0 <= i < 8 && i != r ==> b2[i] == b[i]
    requires forall j :: 0 <= j < 8 && j != c ==> b2[r][j] == b[r][j]
    ensures RowsScore(b2, n) ==
      RowsScore(b, n) + (if r < n then b2[r][c] * WEIGHTS[r][c] - b[r][c] * WEIGHTS[r][c] else 0)
  {
    if n > 0 {
      RowsScoreOneCell(b, b2, r, c, n - 1);
      if n - 1 == r {
        RowScoreOneCell(b, b2, r, c, 8);
      } else {
        RowScoreSameRow(b, b2, n - 1, 8);
      }
    }
  }

  /** The score is Black's: a Black disc on an empty square of positive
      weight raises it by that weight, and a White disc lowers it by the same. */
  lemma ScoreFavoursBlack(b: Grid, r: int, c: int)
    requires ValidBoard(b) && InBounds(r, c) && b[r][c] == EMPTY
    ensures Score(b[r := b[r][c := BLACK]]) == Score(b) + WEIGHTS[r][c]
    ensures Score(b[r := b[r][c := WHITE]]) == Score(b) - WEIGHTS[r][c]
  {
    RowsScoreOneCell(b, b[r := b[r][c := BLACK]], r, c, 8);
    RowsScoreOneCell(b, b[r := b[r][c := WHITE]], r, c, 8);
  }

  /** The evaluation is zero-sum: swapping every disc's colour negates it. */
  lemma ScoreSwapped(b: Grid)
    requires ValidBoard(b)
    ensures Score(Swapped(b)) == -Score(b)
  {
    RowsScoreSwapped(b, 8);
  }
}
