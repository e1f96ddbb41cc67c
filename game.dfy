/** The game state the page keeps between clicks: the board and the side to
    move, with the human playing Black and the AI playing White. */
module Game {
  import opened Board
  import opened Moves
  import opened Search

  /** What the page does once the AI has moved. */
  datatype Outcome =
    | PlayerTurn    // Black has a legal move: the human plays next
    | PlayerPasses  // Black must pass while White can move: the AI plays again
    | GameOver      // neither side can move

  /** The starting position: two discs of each colour on the centre
      diagonals, White on (3,3) and (4,4), Black on (3,4) and (4,3). */
  function InitialBoard(): (b: Grid)
    ensures ValidBoard(b)
  {
    seq(8, i requires 0 <= i < 8 => seq(8, j requires 0 <= j < 8 =>
      if (i == 3 && j == 3) || (i == 4 && j == 4) then WHITE
      else if (i == 3 && j == 4) || (i == 4 && j == 3) then BLACK
      else EMPTY))
  }

  /** Black's opening move at (2,3) is legal: it brackets the White disc at
      (3,3) against the Black disc at (4,3), which it turns over. */
  lemma OpeningMove()
    ensures Legal(InitialBoard(), 2, 3, BLACK)
    ensures Apply(InitialBoard(), 2, 3, BLACK)[3][3] == BLACK
  {
    var b := InitialBoard();
    assert Dir(6) == (1, 0);
    assert BracketsAt(b, 2, 3, Dir(6), BLACK, 1);
    assert RayOf(2, 3, 3, 3) == Some((6, 1));
  }

  /** White too could open: (2,4) brackets the Black disc at (3,4) against
      the White disc at (4,4). */
  lemma WhiteCanOpen()
    ensures Legal(InitialBoard(), 2, 4, WHITE)
  {
    var b := InitialBoard();
    assert Dir(6) == (1, 0);
    assert BracketsAt(b, 2, 4, Dir(6), WHITE, 1);
  }

  /** Both sides have a legal move in the starting position, so the game
      never opens with a pass. */
  lemma BothCanOpen()
    ensures |LegalCells(InitialBoard(), BLACK)| > 0
    ensures |LegalCells(InitialBoard(), WHITE)| > 0
  {
    OpeningMove();
    WhiteCanOpen();
    LegalCellsExact(InitialBoard(), BLACK);
    LegalCellsExact(InitialBoard(), WHITE);
    assert (2, 3) in LegalCells(InitialBoard(), BLACK);
    assert (2, 4) in LegalCells(InitialBoard(), WHITE);
  }

  class Game {
    var board: Grid
    var turn: int

    ghost predicate Valid()
      reads this
    {
      ValidBoard(board) && IsColor(turn)
    }

    /** init, with the side to move starting as Black. */
    constructor ()
      ensures Valid()
      ensures board == InitialBoard() && turn == BLACK
    {
      board := InitialBoard();
      turn := BLACK;
    }

    /** playerMove: a click on (r, c) plays there for Black when it is
        Black's turn and the move is legal, and hands the turn to White;
        any other click changes nothing. */
    method PlayerMove(r: int, c: int)
      requires Valid() && InBounds(r, c)
      modifies this
      ensures Valid()
      ensures old(turn) == BLACK && Legal(old(board), r, c, BLACK) ==>
                board == Apply(old(board), r, c, BLACK) && turn == WHITE
      ensures !(old(turn) == BLACK && Legal(old(board), r, c, BLACK)) ==>
                board == old(board) && turn == old(turn)
    {
      if turn != BLACK {
        return;
      }
      var ok := CanFlip(r, c, BLACK, board);
      if !ok {
        return;
      }
      board := MakeMove(r, c, BLACK, board);
      turn := WHITE;
    }

    /** aiMove: White plays the first best move of its search when it has
        one, the turn passes to Black, and the outcome says whether Black
        can move, must pass, or the game is over. */
    method AiMove() returns (outcome: Outcome)
      requires Valid()
      modifies this
      ensures Valid() && turn == BLACK
      ensures |LegalCells(old(board), WHITE)| == 0 ==> board == old(board)
      ensures |LegalCells(old(board), WHITE)| > 0 ==>
                exists k :: FirstMax(RootValues(old(board), SearchDepth(old(board)), LegalCells(old(board), WHITE)), k) &&
                            board == Apply(old(board), LegalCells(old(board), WHITE)[k].0,
                                           LegalCells(old(board), WHITE)[k].1, WHITE)
      ensures outcome == PlayerTurn <==> |LegalCells(board, BLACK)| > 0
      ensures outcome == PlayerPasses <==> |LegalCells(board, BLACK)| == 0 && |LegalCells(board, WHITE)| > 0
      ensures outcome == GameOver <==> |LegalCells(board, BLACK)| == 0 && |LegalCells(board, WHITE)| == 0
    {
      var choice := ChooseMove(board);
      if choice.Some? {
        LegalCellsExact(board, WHITE);
        board := MakeMove(choice.value.0, choice.value.1, WHITE, board);
      }
      turn := BLACK;
      var blackMoves := GetValidMoves(BLACK, board);
      if |blackMoves| == 0 {
        var whiteMoves := GetValidMoves(WHITE, board);
        if |whiteMoves| == 0 {
          outcome := GameOver;
        } else {
          outcome := PlayerPasses;
        }
      } else {
        outcome := PlayerTurn;
      }
    }
  }
}
