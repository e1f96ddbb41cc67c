/** Legality test, move generation and move application: the loops of the
    engine, each proved against the specification in module Board. */
module Moves {
  import opened Board

  /** The distance, from k on along direction t, of the first cell that does
      not hold an opponent disc: where the engine's scan stops. */
  function RunEnd(b: Grid, r: int, c: int, d: (int, int), color: int, k: int): (m: int)
    requires ValidBoard(b) && IsColor(color) && InBounds(r, c) && IsDir(d) && k >= 1
    ensures k <= m
    ensures forall q :: k <= q < m ==> Probe(b, r, c, d, q) == -color
    ensures Probe(b, r, c, d, m) != -color
    decreases SIZE - k
  {
    if Probe(b, r, c, d, k) != -color then k else RunEnd(b, r, c, d, color, k + 1)
  }

  /** A scan that meets opponent discs from k up to m - 1 and something else
      at m stops at m. */
  lemma {:induction false} RunEndAt(b: Grid, r: int, c: int, d: (int, int), color: int, k: int, m: int)
    requires ValidBoard(b) && IsColor(color) && InBounds(r, c) && IsDir(d) && 1 <= k <= m
    requires forall q :: k <= q < m ==> Probe(b, r, c, d, q) == -color
    requires Probe(b, r, c, d, m) != -color
    ensures RunEnd(b, r, c, d, color, k) == m
    decreases m - k
  {
    if k < m {
      RunEndAt(b, r, c, d, color, k + 1, m);
    }
  }

  /** The cells at distances 1 .. k - 1 along direction t hold opponent discs. */
  predicate OpponentsBefore(b: Grid, r: int, c: int, d: (int, int), color: int, k: int)
    requires ValidBoard(b)
    decreases k
  {
    k <= 1 || (OpponentsBefore(b, r, c, d, color, k - 1) && Probe(b, r, c, d, k - 1) == -color)
  }

  lemma {:induction false} OpponentsBeforeAll(b: Grid, r: int, c: int, d: (int, int), color: int, k: int)
    requires ValidBoard(b) && OpponentsBefore(b, r, c, d, color, k)
    ensures forall q :: 1 <= q < k ==> Probe(b, r, c, d, q) == -color
    decreases k
  {
    if k > 1 {
      OpponentsBeforeAll(b, r, c, d, color, k - 1);
    }
  }

  /** Direction t from (r, c) holds at least one opponent disc and the scan
      stops on a disc of `color`. */
  predicate Closes(b: Grid, r: int, c: int, d: (int, int), color: int)
    requires ValidBoard(b) && IsColor(color) && InBounds(r, c) && IsDir(d)
  {
    var m := RunEnd(b, r, c, d, color, 1);
    m >= 2 && Probe(b, r, c, d, m) == color
  }

  /** The scan agrees with the sandwich rule: it closes exactly when the
      direction brackets a run, and the run is the cells it passed over. */
  lemma ClosesIff(b: Grid, r: int, c: int, d: (int, int), color: int)
    requires ValidBoard(b) && IsColor(color) && InBounds(r, c) && IsDir(d)
    ensures Closes(b, r, c, d, color) <==> Brackets(b, r, c, d, color)
    ensures forall k :: OnRun(b, r, c, d, color, k) <==>
              Closes(b, r, c, d, color) && 1 <= k < RunEnd(b, r, c, d, color, 1)
  {
    ScanDecides(b, r, c, d, color, RunEnd(b, r, c, d, color, 1));
  }

  /** canFlip: whether `color` may play at (r, c). */
  method CanFlip(r: int, c: int, color: int, b: Grid) returns (ok: bool)
    requires ValidBoard(b) && IsColor(color) && InBounds(r, c)
    ensures ok <==> Legal(b, r, c, color)
    ensures b[r][c] != EMPTY ==> !ok
  {
    if b[r][c] != EMPTY {
      return false;
    }
    for t := 0 to 8
      invariant forall t' :: 0 <= t' < t ==> !Closes(b, r, c, Dir(t'), color)
    {
      var closes := ScanCloses(r, c, Dir(t), color, b);
      if closes {
        LegalFromClosing(b, r, c, t, color);
        return true;
      }
    }
    NotLegalWithoutClosing(b, r, c, color);
    return false;
  }

  /** The `while` scan of canFlip along one direction: true when it finds one
      or more opponent discs followed by a disc of `color`. */
  method ScanCloses(r: int, c: int, d: (int, int), color: int, b: Grid) returns (closes: bool)
    requires ValidBoard(b) && IsColor(color) && InBounds(r, c) && IsDir(d)
    ensures closes == Closes(b, r, c, d, color)
  {
    var (dr, dc) := d;
    var nr, nc, foundOpponent := r + dr, c + dc, false;
    ghost var k := 1;
    RayPosNext(r, c, d, 0);
    while 0 <= nr < SIZE && 0 <= nc < SIZE
      invariant 1 <= k <= 8 && (nr, nc) == RayPos(r, c, d, k)
      invariant OpponentsBefore(b, r, c, d, color, k)
      invariant foundOpponent <==> k > 1
      decreases 8 - k
    {
      RayPosNext(r, c, d, k);
      assert Probe(b, r, c, d, k) == b[nr][nc];
      if b[nr][nc] == -color {
        foundOpponent := true;
      } else if b[nr][nc] == color {
        OpponentsBeforeAll(b, r, c, d, color, k);
        RunEndAt(b, r, c, d, color, 1, k);
        return foundOpponent;
      } else {
        OpponentsBeforeAll(b, r, c, d, color, k);
        RunEndAt(b, r, c, d, color, 1, k);
        return false;
      }
      nr, nc, k := nr + dr, nc + dc, k + 1;
    }
    OpponentsBeforeAll(b, r, c, d, color, k);
    RunEndAt(b, r, c, d, color, 1, k);
    return false;
  }

  lemma LegalFromClosing(b: Grid, r: int, c: int, t: int, color: int)
    requires ValidBoard(b) && IsColor(color) && InBounds(r, c) && 0 <= t < 8 && b[r][c] == EMPTY
    requires Closes(b, r, c, Dir(t), color)
    ensures Legal(b, r, c, color)
  {
    ClosesIff(b, r, c, Dir(t), color);
  }

  lemma NotLegalWithoutClosing(b: Grid, r: int, c: int, color: int)
    requires ValidBoard(b) && IsColor(color) && InBounds(r, c)
    requires forall t :: 0 <= t < 8 ==> !Closes(b, r, c, Dir(t), color)
    ensures !Legal(b, r, c, color)
  {
    forall t | 0 <= t < 8
      ensures !Brackets(b, r, c, Dir(t), color)
    {
      ClosesIff(b, r, c, Dir(t), color);
    }
  }

  /** Row-major rank of a cell. */
  function Rank(p: (int, int)): int { p.0 * 8 + p.1 }

  lemma CellOfRank(r: int, c: int)
    requires InBounds(r, c)
    ensures CellOf(Rank((r, c))) == (r, c)
  {
  }

  /** The legal cells among the first n cells in row-major order, in that order. */
  ghost function LegalPrefix(b: Grid, color: int, n: nat): seq<(int, int)>
    requires ValidBoard(b) && n <= 64
  {
    if n == 0 then []
    else
      var p := CellOf(n - 1);
      LegalPrefix(b, color, n - 1) + (if Legal(b, p.0, p.1, color) then [p] else [])
  }

  /** Every legal cell of the board, in row-major order. */
  ghost function LegalCells(b: Grid, color: int): seq<(int, int)>
    requires ValidBoard(b)
  {
    LegalPrefix(b, color, 64)
  }

  /** The prefix lists exactly the legal cells ranked below n, with strictly
      increasing ranks, hence each cell once and in row-major order. */
  lemma {:induction false} LegalPrefixExact(b: Grid, color: int, n: nat)
    requires ValidBoard(b) && n <= 64
    ensures forall p :: p in LegalPrefix(b, color, n) <==>
              InBounds(p.0, p.1) && Rank(p) < n && Legal(b, p.0, p.1, color)
    ensures forall x, y :: 0 <= x < y < |LegalPrefix(b, color, n)| ==>
              Rank(LegalPrefix(b, color, n)[x]) < Rank(LegalPrefix(b, color, n)[y])
  {
    if n > 0 {
      LegalPrefixExact(b, color, n - 1);
      forall p: (int, int) | InBounds(p.0, p.1) && Rank(p) == n - 1
        ensures p == CellOf(n - 1)
      {
        CellOfRank(p.0, p.1);
      }
    }
  }

  /** The move list holds exactly the cells where `color` may play, each once,
      in row-major order. */
  lemma LegalCellsExact(b: Grid, color: int)
    requires ValidBoard(b)
    ensures forall p :: p in LegalCells(b, color) <==> InBounds(p.0, p.1) && Legal(b, p.0, p.1, color)
    ensures forall x, y :: 0 <= x < y < |LegalCells(b, color)| ==>
              Rank(LegalCells(b, color)[x]) < Rank(LegalCells(b, color)[y])
  {
    LegalPrefixExact(b, color, 64);
  }

  lemma LegalPrefixStep(b: Grid, color: int, r: int, c: int, n: nat)
    requires ValidBoard(b) && InBounds(r, c) && n == r * 8 + c
    ensures LegalPrefix(b, color, n + 1) ==
              LegalPrefix(b, color, n) + (if Legal(b, r, c, color) then [(r, c)] else [])
  {
    CellOfRank(r, c);
  }

  /** getValidMoves: scan the board row by row and collect every legal cell. */
  method GetValidMoves(color: int, b: Grid) returns (moves: seq<(int, int)>)
    requires ValidBoard(b) && IsColor(color)
    ensures moves == LegalCells(b, color)
    ensures forall m :: m in moves ==> InBounds(m.0, m.1)
  {
    moves := [];
    ghost var n := 0;
    for r := 0 to SIZE
      invariant n == r * 8 && moves == LegalPrefix(b, color, n)
    {
      for c := 0 to SIZE
        invariant n == r * 8 + c && moves == LegalPrefix(b, color, n)
      {
        LegalPrefixStep(b, color, r, c, n);
        var ok := CanFlip(r, c, color, b);
        if ok {
          moves := moves + [(r, c)];
        }
        n := n + 1;
      }
    }
    LegalCellsExact(b, color);
  }

  /** The cell (i, j) of the copy once the placed disc and the runs of the
      first t directions are written. */
  function Expected(b: Grid, r: int, c: int, color: int, t: int, i: int, j: int): int
    requires ValidBoard(b) && IsColor(color) && InBounds(r, c) && InBounds(i, j)
  {
    if (i, j) == (r, c) then color
    else match RayOf(r, c, i, j)
      case None => b[i][j]
      case Some((t', k)) =>
        if t' < t && Closes(b, r, c, Dir(t'), color) && k < RunEnd(b, r, c, Dir(t'), color, 1) then color else b[i][j]
  }

  ghost predicate Done(b: Grid, r: int, c: int, color: int, t: int, next: Grid)
    requires ValidBoard(b) && IsColor(color) && InBounds(r, c)
  {
    ValidBoard(next) &&
    forall i, j :: InBounds(i, j) ==> next[i][j] == Expected(b, r, c, color, t, i, j)
  }

  /** makeMove: copy the board, place the disc, and turn over every run of
      opponent discs that a disc of `color` closes, direction by direction. */
  method MakeMove(r: int, c: int, color: int, b: Grid) returns (next: Grid)
    requires ValidBoard(b) && IsColor(color) && InBounds(r, c)
    ensures next == Apply(b, r, c, color)
  {
    next := b;
    next := next[r := next[r][c := color]];
    for t := 0 to 8
      invariant Done(b, r, c, color, t, next)
    {
      next := FlipDirection(r, c, t, color, b, next);
    }
    DoneIsApply(b, r, c, color, next);
  }

  /** The body of makeMove's direction loop: scan direction t of the copy and,
      when a disc of `color` closes the run, turn the collected discs over. */
  method FlipDirection(r: int, c: int, t: int, color: int, ghost b: Grid, board: Grid) returns (next: Grid)
    requires ValidBoard(b) && IsColor(color) && InBounds(r, c) && 0 <= t < 8
    requires Done(b, r, c, color, t, board)
    ensures Done(b, r, c, color, t + 1, next)
  {
    forall k | k >= 1
      ensures Probe(board, r, c, Dir(t), k) == Probe(b, r, c, Dir(t), k)
    {
      if InBounds(RayPos(r, c, Dir(t), k).0, RayPos(r, c, Dir(t), k).1) {
        ExpectedOnRay(b, r, c, color, t, k);
      }
    }
    var flipList, closed := CollectRun(r, c, Dir(t), color, board);
    RunEndSameRay(board, b, r, c, Dir(t), color, 1);
    assert |flipList| == RunEnd(b, r, c, Dir(t), color, 1) - 1;
    RunCellsOnBoard(board, r, c, Dir(t), color, |flipList|);
    if closed {
      next := FlipAll(board, flipList, color);
      FlipsCloseDirection(b, r, c, color, t, |flipList| + 1, flipList, board, next);
    } else {
      next := board;
      NothingToFlip(b, r, c, color, t, next);
    }
  }

  /** makeMove's `while` scan along direction d: the opponent discs passed
      over, nearest first, and whether a disc of `color` ends them. */
  method CollectRun(r: int, c: int, d: (int, int), color: int, board: Grid)
    returns (flipList: seq<(int, int)>, closed: bool)
    requires ValidBoard(board) && IsColor(color) && InBounds(r, c) && IsDir(d)
    ensures flipList == RunCells(r, c, d, RunEnd(board, r, c, d, color, 1) - 1)
    ensures closed <==> Probe(board, r, c, d, RunEnd(board, r, c, d, color, 1)) == color
  {
    var (dr, dc) := d;
    var nr, nc := r + dr, c + dc;
    flipList := [];
    ghost var k := 1;
    RayPosNext(r, c, d, 0);
    while 0 <= nr < SIZE && 0 <= nc < SIZE
      invariant 1 <= k <= 8 && (nr, nc) == RayPos(r, c, d, k)
      invariant flipList == RunCells(r, c, d, k - 1)
      invariant OpponentsBefore(board, r, c, d, color, k)
      decreases 8 - k
    {
      RayPosNext(r, c, d, k);
      assert Probe(board, r, c, d, k) == board[nr][nc];
      if board[nr][nc] == -color {
        flipList := flipList + [(nr, nc)];
      } else {
        OpponentsBeforeAll(board, r, c, d, color, k);
        RunEndAt(board, r, c, d, color, 1, k);
        return flipList, board[nr][nc] == color;
      }
      nr, nc, k := nr + dr, nc + dc, k + 1;
    }
    OpponentsBeforeAll(board, r, c, d, color, k);
    RunEndAt(board, r, c, d, color, 1, k);
    return flipList, false;
  }

  /** The cells at distances 1 .. n along direction d, nearest first. */
  function RunCells(r: int, c: int, d: (int, int), n: nat): (cells: seq<(int, int)>)
    ensures |cells| == n
  {
    if n == 0 then [] else RunCells(r, c, d, n - 1) + [RayPos(r, c, d, n)]
  }

  /** The cells a scan passes over lie on the board, cell q at distance q + 1. */
  lemma {:induction false} RunCellsOnBoard(b: Grid, r: int, c: int, d: (int, int), color: int, n: nat)
    requires ValidBoard(b) && IsColor(color) && InBounds(r, c) && IsDir(d)
    requires n < RunEnd(b, r, c, d, color, 1)
    ensures forall q :: 0 <= q < n ==> RunCells(r, c, d, n)[q] == RayPos(r, c, d, q + 1)
    ensures forall q :: 0 <= q < n ==> InBounds(RunCells(r, c, d, n)[q].0, RunCells(r, c, d, n)[q].1)
  {
    if n > 0 {
      RunCellsOnBoard(b, r, c, d, color, n - 1);
      assert Probe(b, r, c, d, n) == -color;
    }
  }

  /** Two boards that agree along a ray stop their scans at the same distance. */
  lemma {:induction false} RunEndSameRay(x: Grid, y: Grid, r: int, c: int, d: (int, int), color: int, k: int)
    requires ValidBoard(x) && ValidBoard(y) && IsColor(color) && InBounds(r, c) && IsDir(d) && k >= 1
    requires forall q :: q >= 1 ==> Probe(x, r, c, d, q) == Probe(y, r, c, d, q)
    ensures RunEnd(x, r, c, d, color, k) == RunEnd(y, r, c, d, color, k)
    decreases SIZE - k
  {
    if Probe(x, r, c, d, k) == -color {
      RunEndSameRay(x, y, r, c, d, color, k + 1);
    }
  }

  /** Cells on ray t still hold their original content before direction t is done. */
  lemma ExpectedOnRay(b: Grid, r: int, c: int, color: int, t: int, k: int)
    requires ValidBoard(b) && IsColor(color) && InBounds(r, c) && 0 <= t < 8 && k >= 1
    requires InBounds(RayPos(r, c, Dir(t), k).0, RayPos(r, c, Dir(t), k).1)
    ensures Expected(b, r, c, color, t, RayPos(r, c, Dir(t), k).0, RayPos(r, c, Dir(t), k).1)
            == Probe(b, r, c, Dir(t), k)
  {
    RayOfRayPos(r, c, t, k);
  }

  /** Doing direction t changes the expected content only on its own closed run. */
  lemma ExpectedStep(b: Grid, r: int, c: int, color: int, t: int, i: int, j: int)
    requires ValidBoard(b) && IsColor(color) && InBounds(r, c) && InBounds(i, j) && 0 <= t < 8
    ensures Expected(b, r, c, color, t + 1, i, j) ==
      if (i, j) != (r, c) && RayOf(r, c, i, j).Some? && RayOf(r, c, i, j).value.0 == t &&
         Closes(b, r, c, Dir(t), color) && RayOf(r, c, i, j).value.1 < RunEnd(b, r, c, Dir(t), color, 1)
      then color else Expected(b, r, c, color, t, i, j)
  {
  }

  /** The `for (let [fr, fc] of flipList)` loop: every listed cell becomes `color`. */
  method FlipAll(board: Grid, flipList: seq<(int, int)>, color: int) returns (next: Grid)
    requires ValidBoard(board) && IsColor(color)
    requires forall q :: 0 <= q < |flipList| ==> InBounds(flipList[q].0, flipList[q].1)
    ensures ValidBoard(next)
    ensures forall i, j :: InBounds(i, j) ==> next[i][j] == (if (i, j) in flipList then color else board[i][j])
  {
    next := board;
    for q := 0 to |flipList|
      invariant ValidBoard(next)
      invariant forall i, j :: InBounds(i, j) ==> next[i][j] == (if (i, j) in flipList[..q] then color else board[i][j])
    {
      var (fr, fc) := flipList[q];
      assert flipList[..q + 1] == flipList[..q] + [(fr, fc)];
      next := next[fr := next[fr][fc := color]];
    }
    assert flipList[..|flipList|] == flipList;
  }

  /** Turning over the listed run of a closing direction t completes it. */
  lemma FlipsCloseDirection(b: Grid, r: int, c: int, color: int, t: int, k: int,
                            flipList: seq<(int, int)>, before: Grid, next: Grid)
    requires ValidBoard(b) && IsColor(color) && InBounds(r, c) && 0 <= t < 8 && k >= 1
    requires RunEnd(b, r, c, Dir(t), color, 1) == k && Probe(b, r, c, Dir(t), k) == color
    requires |flipList| == k - 1
    requires forall q :: 0 <= q < |flipList| ==> flipList[q] == RayPos(r, c, Dir(t), q + 1)
    requires Done(b, r, c, color, t, before) && ValidBoard(next)
    requires forall i, j :: InBounds(i, j) ==> next[i][j] == (if (i, j) in flipList then color else before[i][j])
    ensures Done(b, r, c, color, t + 1, next)
  {
    forall i, j | InBounds(i, j)
      ensures next[i][j] == Expected(b, r, c, color, t + 1, i, j)
    {
      FlipsCloseCell(b, r, c, color, t, k, flipList, i, j);
    }
  }

  /** Cell by cell: doing a closing direction t turns exactly its listed run. */
  lemma FlipsCloseCell(b: Grid, r: int, c: int, color: int, t: int, k: int,
                       flipList: seq<(int, int)>, i: int, j: int)
    requires ValidBoard(b) && IsColor(color) && InBounds(r, c) && 0 <= t < 8 && k >= 1 && InBounds(i, j)
    requires RunEnd(b, r, c, Dir(t), color, 1) == k && Probe(b, r, c, Dir(t), k) == color
    requires |flipList| == k - 1
    requires forall q :: 0 <= q < |flipList| ==> flipList[q] == RayPos(r, c, Dir(t), q + 1)
    ensures Expected(b, r, c, color, t + 1, i, j) ==
            if (i, j) in flipList then color else Expected(b, r, c, color, t, i, j)
  {
    ExpectedStep(b, r, c, color, t, i, j);
    if (i, j) in flipList {
      var q :| 0 <= q < |flipList| && flipList[q] == (i, j);
      RayOfRayPos(r, c, t, q + 1);
    } else if (i, j) != (r, c) && RayOf(r, c, i, j).Some? && RayOf(r, c, i, j).value.0 == t {
      assert forall q :: 1 <= q < k ==> RayPos(r, c, Dir(t), q) in flipList by {
        forall q | 1 <= q < k
          ensures RayPos(r, c, Dir(t), q) in flipList
        {
          assert flipList[q - 1] == RayPos(r, c, Dir(t), q);
        }
      }
    }
  }

  /** A direction the scan does not close leaves the copy as it is. */
  lemma NothingToFlip(b: Grid, r: int, c: int, color: int, t: int, next: Grid)
    requires ValidBoard(b) && IsColor(color) && InBounds(r, c) && 0 <= t < 8
    requires !Closes(b, r, c, Dir(t), color)
    requires Done(b, r, c, color, t, next)
    ensures Done(b, r, c, color, t + 1, next)
  {
    forall i, j | InBounds(i, j)
      ensures next[i][j] == Expected(b, r, c, color, t + 1, i, j)
    {
      ExpectedStep(b, r, c, color, t, i, j);
    }
  }

  /** After all eight directions the copy is the board the sandwich rule prescribes. */
  lemma DoneIsApply(b: Grid, r: int, c: int, color: int, next: Grid)
    requires ValidBoard(b) && IsColor(color) && InBounds(r, c)
    requires Done(b, r, c, color, 8, next)
    ensures next == Apply(b, r, c, color)
  {
    forall i, j | InBounds(i, j)
      ensures next[i][j] == Apply(b, r, c, color)[i][j]
    {
      if (i, j) != (r, c) && RayOf(r, c, i, j).Some? {
        ClosesIff(b, r, c, Dir(RayOf(r, c, i, j).value.0), color);
      }
    }
    BoardExt(next, Apply(b, r, c, color));
  }

  /** Two boards that agree on every cell are equal. */
  lemma BoardExt(x: Grid, y: Grid)
    requires ValidBoard(x) && ValidBoard(y)
    requires forall i, j :: InBounds(i, j) ==> x[i][j] == y[i][j]
    ensures x == y
  {
    forall i | 0 <= i < SIZE
      ensures x[i] == y[i]
    {
    }
  }
}
