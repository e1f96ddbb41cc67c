# Othello engine: a verified model

This project models the Othello (Reversi) engine of a single-page game in
which a human plays Black against an AI playing White. The engine lives in
the script block of `__init__.py`. The model covers these parts:

- the board: an 8×8 grid with Black = 1, White = -1 and empty = 0;
- `canFlip`, the sandwich rule;
- `makeMove`, which copies the board, places a disc and turns the bracketed runs over;
- `getValidMoves`, which lists the legal cells in row-major order;
- `evaluate`, the positional evaluation over the `WEIGHTS` table;
- `minimax`, depth-limited minimax with alpha-beta pruning and passes;
- `aiMove`, which picks a move with its depth policy and reports what happens next;
- `playerMove` and `init`.

Each source loop becomes a Dafny method with invariants. Each method is
proved against a declarative specification:

- `Board.Legal` is the sandwich rule, stated with existentials over directions and run lengths.
- `Board.Apply` is the board after a move, defined cell by cell from the original board.
- `Moves.LegalCells` lists the legal cells in row-major order.
- `Evaluation.Score` is the weighted sum.
- `Search.Value` is plain minimax without pruning, with the engine's pass rule.

Boards are values (`seq<seq<int>>`). `makeMove`'s row-by-row copy therefore
becomes value semantics: the caller's board can never change. The page's
global `board` and `turn` become the fields of the class `Game.Game`.

The engine's behaviour, as the model states it:

- The search is minimax with two branches, White maximising and Black
  minimising, with alpha-beta pruning. A side without a legal move passes:
  the same board is searched one ply shallower with the other side to move.
- `evaluate` is purely positional: the sum of each disc's value (Black = 1,
  White = -1) times its square's weight. A position where neither side can
  move gets no special score. At depth > 0 both sides pass until the depth
  runs out, and then `evaluate` scores it.
- The score counts for Black whichever side is to move
  (`Evaluation.ScoreFavoursBlack`: a Black disc on a square of positive
  weight raises it, a White one lowers it). White is the maximising side, so
  White's search maximises a score that counts Black's discs positively, and
  the AI prefers positions good for its opponent. The model keeps this as
  written: `Search.Value` makes White's plies maximise `Score`.
- The depth policy is 6 plies when more than 50 squares are occupied and 4
  otherwise, and the depth never drops as discs are added
  (`Search.DepthNeverDrops`). `aiMove` searches each reply position at that
  full depth, not at depth - 1, so the AI looks one ply further than the
  depth says.

## Model

| member | source | states |
|---|---|---|
| Board.ScanDecides | __init__.py:81-87 | Suppose a scan meets opponent discs at distances 1..m-1 and something else at m. Then the direction brackets a run exactly when m ≥ 2 and a disc of the mover's colour sits at m. The only bracket ends at m-1, and the cells on the run are exactly those at distances 1..m-1. |
| Moves.ClosesIff | __init__.py:81-87 | The scan's stopping rule agrees with the sandwich rule in every direction: it closes iff the direction brackets a run, and a cell is on the run iff it lies before the stop of a closing scan. |
| Moves.ScanCloses | __init__.py:81-87 | The inner `while` loop of canFlip along one direction returns true exactly when at least one opponent disc is followed by a disc of the mover's colour. |
| Moves.CanFlip | __init__.py:77-90 | Returns true iff the cell is empty and some direction holds one or more opponent discs closed by a disc of `color`. It always returns false on an occupied cell. |
| Moves.LegalFromClosing | __init__.py:84 | A direction whose scan closes makes the empty cell a legal move (the early `return true`). |
| Moves.NotLegalWithoutClosing | __init__.py:89 | If no direction's scan closes, the cell is not a legal move (the final `return false`). |
| Moves.MakeMove | __init__.py:92-108 | The result is `Apply` of the input board: the placed cell holds `color`, every disc on a bracketed run in any of the eight directions holds `color`, and every other cell keeps its value. The input is a value and is not modified. |
| Moves.FlipDirection | __init__.py:96-106 | One pass of the direction loop extends the invariant `Done`. Afterwards the copy holds the placed disc and the flipped runs of directions 0..t. Scanning the partly updated copy is proved to read the original board along the new ray. |
| Moves.CollectRun | __init__.py:97-105 | `flipList` is exactly the cells before the point where the scan stops, nearest first. `closed` holds iff a disc of `color` stops it. |
| Moves.FlipAll | __init__.py:101 | Every cell in `flipList` becomes `color`, and every other cell keeps its value. |
| Moves.RunEndSameRay | __init__.py:99 | Two boards that agree along a ray stop their scans at the same distance. Earlier directions' flips therefore do not affect the scan of later directions. |
| Moves.RunCellsOnBoard | __init__.py:98-99 | The cells a scan passes over are on the board, the q-th at distance q+1. |
| Moves.FlipsCloseCell | __init__.py:100-101 | Doing a closing direction turns exactly the cells of its list to `color` and leaves the expected value of every other cell unchanged. |
| Moves.NothingToFlip | __init__.py:103 | A direction whose scan does not close leaves the board unchanged. |
| Moves.DoneIsApply | __init__.py:107 | After all eight directions the copy equals `Apply` of the original board. |
| Board.ApplyChanges | __init__.py:92-108 | The placed cell holds `color`. Any other cell that changes was an opponent disc on a bracketed run (some direction t and distance k) and now holds `color`. Empty cells other than the placed one stay empty. |
| Board.FlippedWasOpponent | __init__.py:99-101 | Every disc a move turns over was an opponent disc. |
| Board.ApplyAddsOneDisc | __init__.py:92-108 | On an empty cell, a move adds exactly one disc to the board (the count of non-empty cells rises by one). The mover's disc count rises by at least one. |
| Board.LegalMoveFlips | __init__.py:77-108 | A legal move turns over at least one opponent disc, on a square next to the placed one. |
| Board.Dir | __init__.py:79 | Each of the eight entries of the direction table is a unit step: both offsets lie in -1..1 and not both are 0. |
| Board.DirCovers | __init__.py:79 | The table holds every compass direction: every unit step is Dir(t) for some t < 8. With `Board.DirDistinct` this makes `Legal`'s choice of t range over all eight directions. |
| Board.DirDistinct | __init__.py:95 | The table holds each direction once: distinct indices give distinct directions. |
| Board.RayOf | __init__.py:79 | When a cell lies on one of the eight rays from (r, c), RayOf gives that ray's direction number and the distance. |
| Board.RayOfRayPos | __init__.py:95-105 | The cell at distance k ≥ 1 along direction t lies on that ray only, and at that distance only: rays from one cell are disjoint. |
| Moves.GetValidMoves | __init__.py:110-118 | The returned list equals `LegalCells`, and every move is on the board. |
| Moves.LegalCellsExact | __init__.py:110-118 | A cell appears in the list iff it is a legal move. The ranks are strictly increasing, so each legal cell appears once, in row-major order. |
| Moves.LegalPrefixExact | __init__.py:111-116 | After the first n cells in row-major order, the list holds exactly the legal cells of rank below n, in increasing rank. |
| Evaluation.Evaluate | __init__.py:121-129 | Returns `Score`, the sum over all squares of cell value times weight. It lies within ±6400. |
| Evaluation.WeightsBounded | __init__.py:38-47 | Every weight lies between -100 and 100. |
| Evaluation.WeightsSymmetric | __init__.py:38-47 | The weight table is symmetric under the vertical mirror, the horizontal mirror and the main diagonal. |
| Evaluation.ScoreBounded | __init__.py:121-129 | Every board scores within ±6400 = 64 × 100. This is why the integer `INF` stands in safely for ±Infinity. |
| Evaluation.ScoreFavoursBlack | __init__.py:121-129 | The score is Black's: a Black disc placed on an empty square raises it by that square's weight, and a White disc lowers it by the same amount. |
| Evaluation.ScoreSwapped | __init__.py:121-129 | Swapping every disc's colour negates the score: the evaluation is zero-sum. |
| Search.Value | __init__.py:131-156 | Plain minimax, the reference for the pruned search: depth 0 gives `Score`; a side without moves passes (same board, other side, depth - 1); otherwise White takes the maximum and Black the minimum over the children. The value lies within ±6400. |
| Search.Minimax | __init__.py:131-156 | Alpha-beta is fail-soft correct against `Value`: a result above alpha is a lower bound of the value, and one below beta is an upper bound. Inside the window it is the value. At depth 0 it is `evaluate`'s score. The result lies within ±6400. |
| Search.MaxPly | __init__.py:137-146 | White's loop: the result bounds `Best` over all moves in the same fail-soft sense. The cut at beta ≤ alpha is sound. |
| Search.MinPly | __init__.py:146-155 | Black's loop, symmetric to White's with the roles of alpha and beta exchanged. |
| Search.BestPrefix | __init__.py:139-144 | The best over a prefix of the moves is never better for the mover than the best over all of them, which makes the cut-off sound. |
| Search.BestStep | __init__.py:139-142 | The best over one more move is the max (White) or min (Black) of the previous best and that move's value. |
| Search.DepthNeverDrops | __init__.py:174 | Placing a disc on an empty square never makes the search shallower. The depth it compares is `SearchDepth`, whose contract gives 4 or 6, and 6 exactly when more than 50 squares are occupied. |
| Search.ScoreMove | __init__.py:177 | Searching White's move m with the full window (-INF, INF) yields the exact minimax value of the reply position. |
| Search.FirstMaxStep | __init__.py:178-181 | The strict `>` comparison keeps the first maximum: after each move, the kept index is the first one no other move so far beats. |
| Search.ChooseMove | __init__.py:168-184 | Returns None iff White has no legal move. Otherwise it returns the first legal move (in `getValidMoves` order) whose value is greatest. |
| Game.InitialBoard | __init__.py:49-54 | `init`'s starting position is a well-formed board: 8×8, every cell Black, White or empty. |
| Game.WhiteCanOpen | __init__.py:49-54 | In the starting position White could play (2,4), bracketing the Black disc on (3,4). |
| Game.BothCanOpen | __init__.py:49-54 | In the starting position both sides have a legal move, so the game never opens with a pass. |
| Game.OpeningMove | __init__.py:49-54 | In the starting position Black may play (2,3), and doing so turns over the White disc on (3,3). |
| Game.Game.constructor | __init__.py:33-34 | The game starts from the initial position with Black to move. |
| Game.Game.PlayerMove | __init__.py:158-166 | On Black's turn, a click on a legal cell plays it for Black and passes the turn to White. Any other click changes nothing. |
| Game.Game.AiMove | __init__.py:168-196 | If White has no legal move the board is unchanged. Otherwise the board becomes `Apply` of the first best move. Then it is Black's turn, and the outcome tells which case holds: Black can move, Black must pass while White can, or neither side can move. |

## Left out

- Drawing (`draw`), status texts and the DOM are left out. They are presentation only.
- The timers `setTimeout(aiMove, …)` and `async` are left out. `Game.Game.AiMove` returns an outcome instead. `PlayerPasses` marks the point where the page would schedule White's next move.
- `endGame`'s winner message and `resetGame` are left out. They are presentation code around the same state.
- The ±Infinity sentinels become the integer `INF` = 10000. It exceeds every reachable score (`Evaluation.ScoreBounded`), so every comparison comes out the same.
- Score arithmetic uses unbounded integers. JavaScript numbers represent every value reachable here exactly.
- Row aliasing is not modelled. `makeMove` copies every row before writing, so no caller can observe the copy's writes. The model therefore treats boards as values.
- Game.Game.PlayerMove: requires the clicked cell to be on the board. The page only calls it for board squares.
- Several loops of the source are separate methods here: the inner scans (`ScanCloses`, `CollectRun`), one direction of `makeMove` (`FlipDirection`), the flip loop (`FlipAll`), the two branches of `minimax` (`MaxPly`, `MinPly`) and the body of `aiMove`'s loop (`ScoreMove`). Each behaves exactly like the code it replaces.

