/** The AI's search: depth-limited minimax with alpha-beta pruning, where
    White maximises and Black minimises the evaluation, and a side without
    a legal move passes. */
module Search {
  import opened Board
  import opened Moves
  import opened Evaluation

  /** Stands for the engine's ±Infinity: beyond any score a board can reach. */
  const INF := 10000

  function Max(x: int, y: int): int { if x >= y then x else y }

  function Min(x: int, y: int): int { if x <= y then x else y }

  /** The side to move: White on maximising plies, Black on minimising ones. */
  function Mover(isMax: bool): int { if isMax then WHITE else BLACK }

  /** The plain minimax value of a position searched `depth` plies deep,
      without pruning: the reference the pruned search is proved against. */
  ghost function Value(b: Grid, depth: nat, isMax: bool): (v: int)
    requires ValidBoard(b)
    ensures -MAX_SCORE <= v <= MAX_SCORE
    decreases depth, 2
  {
    if depth == 0 then
      ScoreBounded(b);
      Score(b)
    else if |LegalCells(b, Mover(isMax))| == 0 then
      Value(b, depth - 1, !isMax)
    else
      Best(b, depth, isMax, LegalCells(b, Mover(isMax)))
  }

  /** The best child value over a non-empty list of moves: the largest on
      maximising plies, the smallest on minimising ones. */
  ghost function Best(b: Grid, depth: nat, isMax: bool, ms: seq<(int, int)>): (v: int)
    requires ValidBoard(b) && depth >= 1 && |ms| >= 1
    ensures -MAX_SCORE <= v <= MAX_SCORE
    decreases depth, 1, |ms|
  {
    var last := ChildValue(b, depth, isMax, ms[|ms| - 1]);
    if |ms| == 1 then last
    else if isMax then Max(Best(b, depth, isMax, ms[..|ms| - 1]), last)
    else Min(Best(b, depth, isMax, ms[..|ms| - 1]), last)
  }

  /** The value of the position after the side to move plays m. */
  ghost function ChildValue(b: Grid, depth: nat, isMax: bool, m: (int, int)): (v: int)
    requires ValidBoard(b) && depth >= 1
    ensures -MAX_SCORE <= v <= MAX_SCORE
    decreases depth, 0
  {
    Value(Apply(b, m.0, m.1, Mover(isMax)), depth - 1, !isMax)
  }

  /** Best over a longer list is at least as good for the mover as over a prefix. */
  lemma {:induction false} BestPrefix(b: Grid, depth: nat, isMax: bool, ms: seq<(int, int)>, j: int)
    requires ValidBoard(b) && depth >= 1 && 1 <= j <= |ms|
    ensures isMax ==> Best(b, depth, isMax, ms[..j]) <= Best(b, depth, isMax, ms)
    ensures !isMax ==> Best(b, depth, isMax, ms[..j]) >= Best(b, depth, isMax, ms)
    decreases |ms|
  {
    if j < |ms| {
      var front := ms[..|ms| - 1];
      assert front[..j] == ms[..j];
      BestPrefix(b, depth, isMax, front, j);
    } else {
      assert ms[..j] == ms;
    }
  }

  /** Best over one more move combines the previous best with that move's value. */
  lemma BestStep(b: Grid, depth: nat, isMax: bool, ms: seq<(int, int)>, i: int)
    requires ValidBoard(b) && depth >= 1 && 0 <= i < |ms|
    ensures Best(b, depth, isMax, ms[..i + 1]) ==
      if i == 0 then ChildValue(b, depth, isMax, ms[i])
      else if isMax then Max(Best(b, depth, isMax, ms[..i]), ChildValue(b, depth, isMax, ms[i]))
      else Min(Best(b, depth, isMax, ms[..i]), ChildValue(b, depth, isMax, ms[i]))
  {
    assert ms[..i + 1][..i] == ms[..i];
  }

  /** minimax: alpha-beta search. The result is fail-soft: above alpha it is
      a lower bound of the true value, below beta an upper bound, and
      strictly inside the window it is the value itself. */
  method Minimax(b: Grid, depth: nat, alpha: int, beta: int, isMax: bool) returns (v: int)
    requires ValidBoard(b) && alpha < beta
    ensures -MAX_SCORE <= v <= MAX_SCORE
    ensures v > alpha ==> Value(b, depth, isMax) >= v
    ensures v < beta ==> Value(b, depth, isMax) <= v
    ensures depth == 0 ==> v == Score(b)
    decreases depth
  {
    if depth == 0 {
      v := Evaluate(b);
      return;
    }
    var color := if isMax then WHITE else BLACK;
    var moves := GetValidMoves(color, b);
    if |moves| == 0 {
      v := Minimax(b, depth - 1, alpha, beta, !isMax);
      return;
    }
    if isMax {
      v := MaxPly(b, depth, alpha, beta, moves);
    } else {
      v := MinPly(b, depth, alpha, beta, moves);
    }
  }

  /** The maximising branch of minimax: White tries each move in turn,
      raising alpha, and stops once alpha reaches beta. */
  method MaxPly(b: Grid, depth: nat, alpha: int, beta: int, moves: seq<(int, int)>) returns (maxEval: int)
    requires ValidBoard(b) && depth >= 1 && alpha < beta
    requires |moves| >= 1
    requires forall m :: m in moves ==> InBounds(m.0, m.1)
    ensures -MAX_SCORE <= maxEval <= MAX_SCORE
    ensures maxEval > alpha ==> Best(b, depth, true, moves) >= maxEval
    ensures maxEval < beta ==> Best(b, depth, true, moves) <= maxEval
    decreases depth, 0
  {
    maxEval := -INF;
    var a := alpha;
    for i := 0 to |moves|
      invariant i == 0 ==> a == alpha && maxEval == -INF
      invariant i > 0 ==> a == Max(alpha, maxEval) && -MAX_SCORE <= maxEval <= MAX_SCORE
      invariant a < beta
      invariant i > 0 ==> Best(b, depth, true, moves[..i]) <= maxEval
      invariant i > 0 && maxEval > alpha ==> Best(b, depth, true, moves[..i]) >= maxEval
    {
      var (r, c) := moves[i];
      var next := MakeMove(r, c, WHITE, b);
      var e := Minimax(next, depth - 1, a, beta, false);
      BestStep(b, depth, true, moves, i);
      maxEval := Max(maxEval, e);
      a := Max(a, e);
      if beta <= a {
        BestPrefix(b, depth, true, moves, i + 1);
        return;
      }
    }
    assert moves[..|moves|] == moves;
  }

  /** The minimising branch of minimax: Black tries each move in turn,
      lowering beta, and stops once beta reaches alpha. */
  method MinPly(b: Grid, depth: nat, alpha: int, beta: int, moves: seq<(int, int)>) returns (minEval: int)
    requires ValidBoard(b) && depth >= 1 && alpha < beta
    requires |moves| >= 1
    requires forall m :: m in moves ==> InBounds(m.0, m.1)
    ensures -MAX_SCORE <= minEval <= MAX_SCORE
    ensures minEval > alpha ==> Best(b, depth, false, moves) >= minEval
    ensures minEval < beta ==> Best(b, depth, false, moves) <= minEval
    decreases depth, 0
  {
    minEval := INF;
    var be := beta;
    for i := 0 to |moves|
      invariant i == 0 ==> be == beta && minEval == INF
      invariant i > 0 ==> be == Min(beta, minEval) && -MAX_SCORE <= minEval <= MAX_SCORE
      invariant alpha < be
      invariant i > 0 ==> Best(b, depth, false, moves[..i]) >= minEval
      invariant i > 0 && minEval < beta ==> Best(b, depth, false, moves[..i]) <= minEval
    {
      var (r, c) := moves[i];
      var next := MakeMove(r, c, BLACK, b);
      var e := Minimax(next, depth - 1, alpha, be, true);
      BestStep(b, depth, false, moves, i);
      minEval := Min(minEval, e);
      be := Min(be, e);
      if be <= alpha {
        BestPrefix(b, depth, false, moves, i + 1);
        return;
      }
    }
    assert moves[..|moves|] == moves;
  }

  /** aiMove's depth policy: read deeper once more than 50 squares are taken. */
  function SearchDepth(b: Grid): (depth: nat)
    requires ValidBoard(b)
    ensures depth == 4 || depth == 6
    ensures depth == 6 <==> Occupied(b, 64) > 50
  {
    if Occupied(b, 64) > 50 then 6 else 4
  }

  /** The depth never drops as the game goes on: placing a disc on an empty
      square keeps the search at least as deep. */
  lemma DepthNeverDrops(b: Grid, r: int, c: int, color: int)
    requires ValidBoard(b) && IsColor(color) && InBounds(r, c) && b[r][c] == EMPTY
    ensures SearchDepth(b) <= SearchDepth(Apply(b, r, c, color))
  {
    ApplyAddsOneDisc(b, r, c, color);
  }

  /** The value the AI assigns to playing m: the exact minimax value of the
      reply position, searched `depth` further plies with Black to move. */
  ghost function RootValue(b: Grid, depth: nat, m: (int, int)): int
    requires ValidBoard(b)
  {
    Value(Apply(b, m.0, m.1, WHITE), depth, false)
  }

  /** The values of the moves of ms, in order. */
  ghost function RootValues(b: Grid, depth: nat, ms: seq<(int, int)>): (vs: seq<int>)
    requires ValidBoard(b)
    ensures |vs| == |ms|
  {
    seq(|ms|, j requires 0 <= j < |ms| => RootValue(b, depth, ms[j]))
  }

  /** vs[k] is the first entry of vs that no other entry exceeds. */
  predicate FirstMax(vs: seq<int>, k: int) {
    0 <= k < |vs| &&
    (forall j :: 0 <= j < |vs| ==> vs[j] <= vs[k]) &&
    (forall j :: 0 <= j < k ==> vs[j] < vs[k])
  }

  /** Scanning one more entry keeps the first maximum found so far, unless
      the new entry is strictly greater. */
  lemma FirstMaxStep(vs: seq<int>, i: int, k: int, k': int)
    requires 0 <= i < |vs|
    requires i > 0 ==> FirstMax(vs[..i], k)
    requires k' == if i == 0 || vs[i] > vs[k] then i else k
    ensures FirstMax(vs[..i + 1], k')
  {
    assert forall j :: 0 <= j < i ==> vs[..i + 1][j] == vs[..i][j];
  }

  /** The loop body of aiMove: play m for White and search the reply
      position with the full window, which yields its exact value. */
  method ScoreMove(b: Grid, depth: nat, m: (int, int)) returns (score: int)
    requires ValidBoard(b) && InBounds(m.0, m.1)
    ensures score == RootValue(b, depth, m)
  {
    var next := MakeMove(m.0, m.1, WHITE, b);
    score := Minimax(next, depth, -INF, INF, false);
  }

  /** The search part of aiMove: among White's legal moves, the first one
      with the highest score; None when White has no legal move. */
  method ChooseMove(b: Grid) returns (choice: Option<(int, int)>)
    requires ValidBoard(b)
    ensures choice.None? <==> |LegalCells(b, WHITE)| == 0
    ensures choice.Some? ==> exists k :: FirstMax(RootValues(b, SearchDepth(b), LegalCells(b, WHITE)), k) &&
                                         choice.value == LegalCells(b, WHITE)[k]
  {
    var moves := GetValidMoves(WHITE, b);
    if |moves| == 0 {
      return None;
    }
    var bestScore := -INF;
    var bestMove := moves[0];
    var depth := SearchDepth(b);
    ghost var vals := RootValues(b, depth, moves);
    ghost var k := 0;
    for i := 0 to |moves|
      invariant i == 0 ==> bestScore == -INF && k == 0
      invariant i > 0 ==> FirstMax(vals[..i], k) && bestScore == vals[k]
      invariant 0 <= k < |moves| && bestMove == moves[k]
    {
      var score := ScoreMove(b, depth, moves[i]);
      ghost var k' := if i == 0 || score > bestScore then i else k;
      FirstMaxStep(vals, i, k, k');
      if score > bestScore {
        bestScore := score;
        bestMove := moves[i];
      }
      k := k';
    }
    assert vals[..|moves|] == vals;
    return Some(bestMove);
  }
}
