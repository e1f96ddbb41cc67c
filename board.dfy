/** The 8x8 Othello board, the sandwich rule and the result of placing a disc,
    stated as specification functions that the engine's loops are proved against. */
module Board {

  const SIZE := 8
  const BLACK := 1
  const WHITE := -1
  const EMPTY := 0

  /** A board is eight rows of eight cells; a cell is BLACK, WHITE or EMPTY. */
  type Grid = seq<seq<int>>

  predicate IsCell(v: int) { v == BLACK || v == WHITE || v == EMPTY }

  predicate IsColor(color: int) { color == BLACK || color == WHITE }

  predicate InBounds(r: int, c: int) { 0 <= r < SIZE && 0 <= c < SIZE }

  predicate ValidBoard(b: Grid) {
    |b| == SIZE &&
    (forall i :: 0 <= i < SIZE ==> |b[i]| == SIZE) &&
    (forall i, j :: 0 <= i < SIZE && 0 <= j < SIZE ==> IsCell(b[i][j]))
  }

  /** A unit step in one of the eight compass directions. */
  predicate IsDir(d: (int, int)) {
    -1 <= d.0 <= 1 && -1 <= d.1 <= 1 && d != (0, 0)
  }

  /** The eight compass directions as (row offset, column offset), numbered
      0..7 in the order the engine visits them:
      (-1,-1) (-1,0) (-1,1) (0,-1) (0,1) (1,-1) (1,0) (1,1). */
  function Dir(t: int): (d: (int, int))
    ensures IsDir(d)
  {
    (if t < 3 then -1 else if t < 5 then 0 else 1,
     if t == 0 || t == 3 || t == 5 then -1 else if t == 1 || t == 6 then 0 else 1)
  }

  /** The table holds every compass direction: each unit step is Dir(t)
      for some t, namely DirIndex of its offsets. */
  lemma DirCovers(d: (int, int))
    requires IsDir(d)
    ensures exists t :: 0 <= t < 8 && Dir(t) == d
  {
    assert Dir(DirIndex(d.0, d.1)) == d;
  }

  /** The table holds each direction once. */
  lemma DirDistinct(t: int, u: int)
    requires 0 <= t < u < 8
    ensures Dir(t) != Dir(u)
  {
  }

  /** Coordinate `x` moved `k` steps along a unit offset `d` (one of -1, 0, 1). */
  function Step(x: int, d: int, k: int): int {
    if d > 0 then x + k else if d < 0 then x - k else x
  }

  /** The cell `k` steps from (r, c) along direction `d`. */
  function RayPos(r: int, c: int, d: (int, int), k: int): (int, int) {
    (Step(r, d.0, k), Step(c, d.1, k))
  }

  /** The content of cell p; a position off the board reads as EMPTY, since
      the engine's scans treat the edge and an empty cell alike. */
  function At(b: Grid, p: (int, int)): (v: int)
    requires ValidBoard(b)
    ensures IsCell(v)
  {
    if InBounds(p.0, p.1) then b[p.0][p.1] else EMPTY
  }

  /** The content of the cell `k` steps from (r, c) along `d`. */
  function Probe(b: Grid, r: int, c: int, d: (int, int), k: int): (v: int)
    requires ValidBoard(b)
  {
    At(b, RayPos(r, c, d, k))
  }

  /** Along `d` from (r, c), the cells at distances 1..n hold the opponent's
      discs and the cell at distance n + 1 holds a disc of `color`. */
  ghost predicate BracketsAt(b: Grid, r: int, c: int, d: (int, int), color: int, n: int)
    requires ValidBoard(b)
  {
    n >= 1 &&
    (forall k :: 1 <= k <= n ==> Probe(b, r, c, d, k) == -color) &&
    Probe(b, r, c, d, n + 1) == color
  }

  /** Direction `d` from (r, c) holds a bracketed run of any length. */
  ghost predicate Brackets(b: Grid, r: int, c: int, d: (int, int), color: int)
    requires ValidBoard(b)
  {
    exists n :: BracketsAt(b, r, c, d, color, n)
  }

  /** The sandwich rule: (r, c) is empty and some direction brackets a run. */
  ghost predicate Legal(b: Grid, r: int, c: int, color: int)
    requires ValidBoard(b)
  {
    InBounds(r, c) && b[r][c] == EMPTY &&
    exists t :: 0 <= t < 8 && Brackets(b, r, c, Dir(t), color)
  }

  /** The cell at distance `k` along `d` lies inside a bracketed run. */
  ghost predicate OnRun(b: Grid, r: int, c: int, d: (int, int), color: int, k: int)
    requires ValidBoard(b)
  {
    exists n :: 1 <= k <= n && BracketsAt(b, r, c, d, color, n)
  }

  function Abs(x: int): nat { if x < 0 then -x else x }

  function Sign(x: int): int { if x > 0 then 1 else if x < 0 then -1 else 0 }

  /** The number Dir gives to a non-zero unit offset. */
  function DirIndex(dr: int, dc: int): nat {
    if dr < 0 then (if dc < 0 then 0 else if dc == 0 then 1 else 2)
    else if dr == 0 then (if dc < 0 then 3 else 4)
    else (if dc < 0 then 5 else if dc == 0 then 6 else 7)
  }

  datatype Option<T> = None | Some(value: T)

  /** The direction index and distance at which (i, j) lies on one of the
      eight rays from (r, c), or None when it lies on none of them. */
  function RayOf(r: int, c: int, i: int, j: int): (o: Option<(nat, nat)>)
    ensures o.Some? ==> o.value.0 < 8 && o.value.1 >= 1
    ensures o.Some? ==> RayPos(r, c, Dir(o.value.0), o.value.1) == (i, j)
  {
    var di, dj := i - r, j - c;
    if di == 0 && dj == 0 then None
    else if di != 0 && dj != 0 && Abs(di) != Abs(dj) then None
    else Some((DirIndex(Sign(di), Sign(dj)), if Abs(di) > Abs(dj) then Abs(di) else Abs(dj)))
  }

  /** Every cell on a ray is found on that ray, and at that distance, only. */
  lemma RayOfRayPos(r: int, c: int, t: int, k: int)
    requires 0 <= t < 8 && k >= 1
    ensures RayOf(r, c, RayPos(r, c, Dir(t), k).0, RayPos(r, c, Dir(t), k).1) == Some((t, k))
  {
  }

  /** One step along a direction moves each coordinate by that direction's offset. */
  lemma RayPosNext(r: int, c: int, d: (int, int), k: int)
    requires IsDir(d)
    ensures RayPos(r, c, d, 0) == (r, c)
    ensures RayPos(r, c, d, k + 1) == (RayPos(r, c, d, k).0 + d.0, RayPos(r, c, d, k).1 + d.1)
  {
  }

  /** (i, j) is one of the opponent discs that placing `color` at (r, c) turns over. */
  ghost predicate Flipped(b: Grid, r: int, c: int, color: int, i: int, j: int)
    requires ValidBoard(b)
  {
    match RayOf(r, c, i, j)
    case None => false
    case Some((t, k)) => OnRun(b, r, c, Dir(t), color, k)
  }

  /** The board after `color` is placed at (r, c): that cell holds `color`,
      every disc on a bracketed run turns to `color`, all else is unchanged. */
  ghost function Apply(b: Grid, r: int, c: int, color: int): (nb: Grid)
    requires ValidBoard(b) && IsColor(color)
    ensures ValidBoard(nb)
  {
    seq(SIZE, i requires 0 <= i < SIZE =>
      seq(SIZE, j requires 0 <= j < SIZE => NewCell(b, r, c, color, i, j)))
  }

  ghost function NewCell(b: Grid, r: int, c: int, color: int, i: int, j: int): int
    requires ValidBoard(b) && IsColor(color) && InBounds(i, j)
  {
    if (i, j) == (r, c) || Flipped(b, r, c, color, i, j) then color else b[i][j]
  }

  /** A scan from distance 1 that meets opponent discs up to distance m - 1
      and something else at distance m decides every bracket in that
      direction: the only possible one ends at m. */
  lemma ScanDecides(b: Grid, r: int, c: int, d: (int, int), color: int, m: int)
    requires ValidBoard(b) && IsColor(color) && m >= 1
    requires forall k :: 1 <= k < m ==> Probe(b, r, c, d, k) == -color
    requires Probe(b, r, c, d, m) != -color
    ensures forall n :: BracketsAt(b, r, c, d, color, n) <==> (n == m - 1 && m >= 2 && Probe(b, r, c, d, m) == color)
    ensures Brackets(b, r, c, d, color) <==> (m >= 2 && Probe(b, r, c, d, m) == color)
    ensures forall k :: OnRun(b, r, c, d, color, k) <==> (1 <= k < m && Probe(b, r, c, d, m) == color)
  {
    if m >= 2 && Probe(b, r, c, d, m) == color {
      assert BracketsAt(b, r, c, d, color, m - 1);
    }
  }

  /** A turned-over disc was the opponent's. */
  lemma FlippedWasOpponent(b: Grid, r: int, c: int, color: int, i: int, j: int)
    requires ValidBoard(b) && IsColor(color) && InBounds(i, j)
    requires Flipped(b, r, c, color, i, j)
    ensures b[i][j] == -color
  {
    var t, k := RayOf(r, c, i, j).value.0, RayOf(r, c, i, j).value.1;
    var n :| 1 <= k <= n && BracketsAt(b, r, c, Dir(t), color, n);
    assert Probe(b, r, c, Dir(t), k) == -color;
  }

  /** What placing a disc changes: the placed cell becomes `color`; any other
      cell that changes was an opponent disc inside a bracketed run and now
      holds `color`; every other cell, empty cells included, is unchanged. */
  lemma ApplyChanges(b: Grid, r: int, c: int, color: int, i: int, j: int)
    requires ValidBoard(b) && IsColor(color) && InBounds(r, c) && InBounds(i, j)
    ensures Apply(b, r, c, color)[r][c] == color
    ensures (i, j) != (r, c) && Apply(b, r, c, color)[i][j] != b[i][j] ==>
              b[i][j] == -color && Apply(b, r, c, color)[i][j] == color &&
              exists t, k :: 0 <= t < 8 && RayPos(r, c, Dir(t), k) == (i, j) && OnRun(b, r, c, Dir(t), color, k)
    ensures b[i][j] == EMPTY && (i, j) != (r, c) ==> Apply(b, r, c, color)[i][j] == EMPTY
  {
    if (i, j) != (r, c) && Flipped(b, r, c, color, i, j) {
      FlippedWasOpponent(b, r, c, color, i, j);
      var t, k := RayOf(r, c, i, j).value.0, RayOf(r, c, i, j).value.1;
      assert RayPos(r, c, Dir(t), k) == (i, j);
    }
  }

  /** A legal move turns over at least one opponent disc, next to the placed one. */
  lemma LegalMoveFlips(b: Grid, r: int, c: int, color: int)
    requires ValidBoard(b) && IsColor(color) && Legal(b, r, c, color)
    ensures exists i, j :: InBounds(i, j) && b[i][j] == -color && Apply(b, r, c, color)[i][j] == color &&
                           exists t :: 0 <= t < 8 && (i, j) == RayPos(r, c, Dir(t), 1)
  {
    var t :| 0 <= t < 8 && Brackets(b, r, c, Dir(t), color);
    var n :| BracketsAt(b, r, c, Dir(t), color, n);
    var (i, j) := RayPos(r, c, Dir(t), 1);
    assert Probe(b, r, c, Dir(t), 1) == -color;
    assert InBounds(i, j) && b[i][j] == -color;
    RayOfRayPos(r, c, t, 1);
    assert OnRun(b, r, c, Dir(t), color, 1);
    assert NewCell(b, r, c, color, i, j) == color;
    assert Apply(b, r, c, color)[i][j] == color;
  }

  /** Row-major position of the n-th cell. */
  function CellOf(n: int): (p: (int, int))
    requires 0 <= n < 64
    ensures InBounds(p.0, p.1) && p.0 * 8 + p.1 == n
  {
    (n / 8, n % 8)
  }

  /** Number of cells among the first n (row-major) that hold `v`. */
  function Tally(b: Grid, v: int, n: nat): nat
    requires ValidBoard(b) && n <= 64
  {
    if n == 0 then 0
    else Tally(b, v, n - 1) + (if b[CellOf(n - 1).0][CellOf(n - 1).1] == v then 1 else 0)
  }

  /** Number of cells among the first n (row-major) that hold a disc. */
  function Occupied(b: Grid, n: nat): nat
    requires ValidBoard(b) && n <= 64
  {
    if n == 0 then 0
    else Occupied(b, n - 1) + (if b[CellOf(n - 1).0][CellOf(n - 1).1] != EMPTY then 1 else 0)
  }

  /** Every cell holding `v` in b still holds it in b2, and the cell numbered p
      holds `v` in b2 but not in b: the tally of `v` grows by at least one. */
  lemma {:induction false} TallyGrows(b: Grid, b2: Grid, v: int, p: nat, n: nat)
    requires ValidBoard(b) && ValidBoard(b2) && n <= 64 && p < n
    requires forall q :: 0 <= q < n && b[CellOf(q).0][CellOf(q).1] == v ==> b2[CellOf(q).0][CellOf(q).1] == v
    requires b2[CellOf(p).0][CellOf(p).1] == v && b[CellOf(p).0][CellOf(p).1] != v
    ensures Tally(b2, v, n) >= Tally(b, v, n) + 1
  {
    if p < n - 1 {
      TallyGrows(b, b2, v, p, n - 1);
    } else {
      TallyNoLess(b, b2, v, n - 1);
    }
  }

  lemma {:induction false} TallyNoLess(b: Grid, b2: Grid, v: int, n: nat)
    requires ValidBoard(b) && ValidBoard(b2) && n <= 64
    requires forall q :: 0 <= q < n && b[CellOf(q).0][CellOf(q).1] == v ==> b2[CellOf(q).0][CellOf(q).1] == v
    ensures Tally(b2, v, n) >= Tally(b, v, n)
  {
    if n > 0 {
      TallyNoLess(b, b2, v, n - 1);
    }
  }

  /** Cells numbered below n keep their emptiness, except cell p, which was
      empty in b and holds a disc in b2: one more occupied cell. */
  lemma {:induction false} OccupiedOneMore(b: Grid, b2: Grid, p: nat, n: nat)
    requires ValidBoard(b) && ValidBoard(b2) && n <= 64
    requires forall q :: 0 <= q < n && q != p ==>
               (b[CellOf(q).0][CellOf(q).1] == EMPTY <==> b2[CellOf(q).0][CellOf(q).1] == EMPTY)
    requires p < 64 && b[CellOf(p).0][CellOf(p).1] == EMPTY && b2[CellOf(p).0][CellOf(p).1] != EMPTY
    ensures Occupied(b2, n) == Occupied(b, n) + (if p < n then 1 else 0)
  {
    if n > 0 {
      OccupiedOneMore(b, b2, p, n - 1);
    }
  }

  /** Placing a disc on an empty cell adds exactly one disc to the board and
      never lowers the mover's disc count: it grows by at least one. */
  lemma ApplyAddsOneDisc(b: Grid, r: int, c: int, color: int)
    requires ValidBoard(b) && IsColor(color) && InBounds(r, c) && b[r][c] == EMPTY
    ensures Occupied(Apply(b, r, c, color), 64) == Occupied(b, 64) + 1
    ensures Tally(Apply(b, r, c, color), color, 64) >= Tally(b, color, 64) + 1
  {
    var nb := Apply(b, r, c, color);
    var p := r * 8 + c;
    assert CellOf(p) == (r, c);
    forall q | 0 <= q < 64
      ensures q != p ==> (b[CellOf(q).0][CellOf(q).1] == EMPTY <==> nb[CellOf(q).0][CellOf(q).1] == EMPTY)
      ensures b[CellOf(q).0][CellOf(q).1] == color ==> nb[CellOf(q).0][CellOf(q).1] == color
    {
      ApplyChanges(b, r, c, color, CellOf(q).0, CellOf(q).1);
    }
    OccupiedOneMore(b, nb, p, 64);
    TallyGrows(b, nb, color, p, 64);
  }
}
