/** The game's state and its transitions: starting a game, placing a mark,
    the winner tests, and the two in-game events of the main loop that drive
    the engine (a click on the board and the AI's turn). */
module GameState {
  import opened BoardState
  import opened Engine
  import opened Mouse

  /** The game's `winner` field: none yet, a player, or a draw. */
  datatype Outcome = Undecided | Won(player: Player) | Draw

  datatype Game = Game(board: Board, current: Player, gameOver: bool, winner: Outcome, aiThinking: bool)

  /** X's marks minus O's marks. */
  function Lead(b: Board): int {
    Count(b, Mark(X)) - Count(b, Mark(O))
  }

  /** What every game reached by play satisfies. While the game runs no line
      is complete, the board has room, and X leads by one exactly when O is
      to move. Once it is over, `current` is the player who moved last, and
      the outcome says why it ended. */
  predicate Invariant(g: Game) {
    if !g.gameOver then
      && g.winner == Undecided
      && !WinsFor(g.board, X) && !WinsFor(g.board, O)
      && !IsBoardFull(g.board)
      && Lead(g.board) == (if g.current == X then 0 else 1)
    else
      && Lead(g.board) == (if g.current == X then 1 else 0)
      && match g.winner
         case Undecided => false
         case Won(p) => p == g.current && WinsFor(g.board, p) && !WinsFor(g.board, Other(p))
         case Draw => IsBoardFull(g.board) && !WinsFor(g.board, X) && !WinsFor(g.board, O)
  }

  /** A fresh game: an empty board, X to move, nothing decided. */
  function ResetGame(): (g: Game)
    ensures Invariant(g)
    ensures g.current == X && CountEmpty(g.board) == 9
    ensures !g.aiThinking
  {
    EmptyBoardClear(X);
    EmptyBoardClear(O);
    Game(EmptyBoard, X, false, Undecided, false)
  }

  /** The game's winner test for the player to move. */
  function CheckWinner(g: Game): (won: bool)
    ensures won <==> exists n :: HasLine(g.board, n, g.current)
  {
    WinsFor(g.board, g.current)
  }

  /** Placing the current player's mark at (row, col). An occupied cell is
      refused and nothing changes. Otherwise exactly that cell receives the
      mark; a completed line ends the game with the mover as winner, else a
      full board ends it as a draw, else the turn passes to the other player.
      The game does not check the game-over flag here: its event loop does. */
  function MakeMove(g: Game, row: int, col: int): (res: (Game, bool))
    requires 0 <= row < 3 && 0 <= col < 3
    ensures !res.1 <==> g.board[3 * row + col] != Empty
    ensures !res.1 ==> res.0 == g
    ensures res.1 ==> res.0.board[3 * row + col] == Mark(g.current)
    ensures res.1 ==> forall i :: 0 <= i < 9 && i != 3 * row + col ==> res.0.board[i] == g.board[i]
    ensures res.1 ==> res.0.aiThinking == g.aiThinking
    ensures res.1 && WinsFor(res.0.board, g.current) ==>
              res.0.gameOver && res.0.winner == Won(g.current) && res.0.current == g.current
    ensures res.1 && !WinsFor(res.0.board, g.current) && IsBoardFull(res.0.board) ==>
              res.0.gameOver && res.0.winner == Draw && res.0.current == g.current
    ensures res.1 && !WinsFor(res.0.board, g.current) && !IsBoardFull(res.0.board) ==>
              res.0.current == Other(g.current) && res.0.gameOver == g.gameOver && res.0.winner == g.winner
  {
    var c := Pos(row, col);
    if At(g.board, c) == Empty then
      var board := Place(g.board, c, g.current);
      var g' := g.(board := board);
      if CheckWinner(g') then (g'.(gameOver := true, winner := Won(g.current)), true)
      else if IsBoardFull(board) then (g'.(gameOver := true, winner := Draw), true)
      else (g'.(current := Other(g.current)), true)
    else
      (g, false)
  }

  /** A move in a running game keeps the invariant. */
  lemma MakeMoveKeepsInvariant(g: Game, row: int, col: int)
    requires 0 <= row < 3 && 0 <= col < 3
    ensures Invariant(g) && !g.gameOver ==> Invariant(MakeMove(g, row, col).0)
  {
    var c := Pos(row, col);
    if Invariant(g) && !g.gameOver && At(g.board, c) == Empty {
      var p, b := g.current, g.board;
      var b' := Place(b, c, p);
      PlaceUsesOneEmpty(b, c, p);
      PlaceNoOtherLine(b, c, p, Other(p));
      assert !WinsFor(b, Other(p));
      assert !WinsFor(b', Other(p));
      assert Lead(b') == (if p == X then 1 else 0) by {
        if p == X {
          assert Count(b', Mark(X)) == Count(b, Mark(X)) + 1;
          assert Count(b', Mark(O)) == Count(b, Mark(O));
        } else {
          assert Count(b', Mark(O)) == Count(b, Mark(O)) + 1;
          assert Count(b', Mark(X)) == Count(b, Mark(X));
        }
      }
      var g' := MakeMove(g, row, col).0;
      if WinsFor(b', p) {
        assert g' == Game(b', p, true, Won(p), g.aiThinking);
      } else if IsBoardFull(b') {
        assert g' == Game(b', p, true, Draw, g.aiThinking);
      } else {
        assert g' == Game(b', Other(p), false, Undecided, g.aiThinking);
      }
    }
  }

  /** A move on an empty cell is accepted and writes the mover's mark there. */
  lemma MoveOnEmptyCell(g: Game, c: Pos)
    requires ValidPos(c) && At(g.board, c) == Empty
    ensures MakeMove(g, c.row, c.col).1
    ensures MakeMove(g, c.row, c.col).0.board == Place(g.board, c, g.current)
  {
  }

  /** The guards of the in-game click: the game runs, the AI is not
      thinking, and it is a two-player game or X is to move. */
  predicate ClickAccepted(g: Game, pvp: bool) {
    !g.gameOver && !g.aiThinking && (pvp || g.current == X)
  }

  /** A pixel square that holds a point is the only one: the cells of the
      grid do not overlap. */
  lemma CoversUnique(c: Pos, d: Pos, x: int, y: int)
    requires CellCovers(c, x, y) && CellCovers(d, x, y)
    ensures c == d
  {
  }

  /** The click once the event loop has mapped it to a cell: refused unless
      the guards hold, ignored off the grid, a move on a board cell, and
      `None` for a cell past the board, where the game's indexing fails. */
  function PlayClick(g: Game, pvp: bool, cell: Option<Pos>): (r: Option<Game>)
    ensures r.None? <==> ClickAccepted(g, pvp) && cell.Some? && !ValidPos(cell.value)
    ensures !ClickAccepted(g, pvp) || cell.None? ==> r == Some(g)
    ensures ClickAccepted(g, pvp) && cell.Some? && ValidPos(cell.value) ==>
              r == Some(MakeMove(g, cell.value.row, cell.value.col).0)
    ensures Invariant(g) && r.Some? ==> Invariant(r.value)
  {
    if !ClickAccepted(g, pvp) then Some(g)
    else
      match cell
      case None => Some(g)
      case Some(c) =>
        if !ValidPos(c) then None
        else
          MakeMoveKeepsInvariant(g, c.row, c.col);
          Some(MakeMove(g, c.row, c.col).0)
  }

  /** The in-game click of the event loop, as the game runs it: the game's
      own mapping feeds the move. A click that the guards refuse or that
      misses the grid changes nothing. A click in a board cell plays there,
      and an empty cell receives the mover's mark. A click on the grid's right or bottom
      edge maps past the board and the game fails (`None`). */
  function HandleGameClick(g: Game, pvp: bool, x: int, y: int): (r: Option<Game>)
    ensures r.None? <==> ClickAccepted(g, pvp) && OnGrid(x, y) && !InsideGrid(x, y)
    ensures !ClickAccepted(g, pvp) || !OnGrid(x, y) ==> r == Some(g)
    ensures forall c :: ClickAccepted(g, pvp) && ValidPos(c) && CellCovers(c, x, y) ==>
              && r == Some(MakeMove(g, c.row, c.col).0)
              && (At(g.board, c) == Empty ==> r.value.board == Place(g.board, c, g.current))
    ensures Invariant(g) && r.Some? ==> Invariant(r.value)
  {
    var cell := CellFromMouse(x, y);
    forall c | ClickAccepted(g, pvp) && ValidPos(c) && CellCovers(c, x, y)
      ensures cell == Some(c)
    {
      CoversUnique(cell.value, c, x, y);
    }
    forall c | ValidPos(c) && At(g.board, c) == Empty
      ensures MakeMove(g, c.row, c.col).0.board == Place(g.board, c, g.current)
    {
      MoveOnEmptyCell(g, c);
    }
    PlayClick(g, pvp, cell)
  }

  /** The click with the corrected mapping: it never fails, and wherever
      the game's click does not fail the two agree. */
  function HandleGameClickFixed(g: Game, pvp: bool, x: int, y: int): (g': Game)
    ensures HandleGameClick(g, pvp, x, y).Some? ==> g' == HandleGameClick(g, pvp, x, y).value
    ensures !InsideGrid(x, y) ==> g' == g
    ensures Invariant(g) ==> Invariant(g')
  {
    PlayClick(g, pvp, CellFromMouseFixed(x, y)).value
  }

  /** The AI's turn in a game against the AI: when O is to move in a running
      game, O's best move is played. The game unpacks the best move without
      a check, so `None` stands for that failure; from any state satisfying
      the invariant it cannot happen, and the invariant is kept. */
  function AiTurn(g: Game): (r: Option<Game>)
    ensures Invariant(g) ==> r.Some? && Invariant(r.value)
    ensures g.current != O || g.gameOver || g.aiThinking ==> r == Some(g)
    ensures Invariant(g) && g.current == O && !g.gameOver && !g.aiThinking ==>
              && BestMove(g.board).Some?
              && r == Some(MakeMove(g, BestMove(g.board).value.row, BestMove(g.board).value.col).0)
              && r.value.board == Place(g.board, BestMove(g.board).value, O)
    ensures r.Some? && r.value != g ==>
              && BestMove(g.board).Some?
              && r.value.board == Place(g.board, BestMove(g.board).value, O)
  {
    if g.current != O || g.gameOver || g.aiThinking then Some(g)
    else
      FullIffNoEmptyCells(g.board);
      match BestMove(g.board)
      case None => None
      case Some(c) =>
        MoveOnEmptyCell(g, c);
        MakeMoveKeepsInvariant(g, c.row, c.col);
        Some(MakeMove(g, c.row, c.col).0)
  }

  /** The position  O O X / X O X / X _ _  with O to move: X has one mark
      more than O, nobody holds a line, and two cells are left. */
  const ScenarioBoard: Board :=
    [Mark(O), Mark(O), Mark(X), Mark(X), Mark(O), Mark(X), Mark(X), Empty, Empty]

  /** X has four marks in the position, O three. */
  lemma ScenarioLead()
    ensures Lead(ScenarioBoard) == 1
  {
    var b := ScenarioBoard;
    var m := multiset(b);
    assert m == multiset{Mark(O), Mark(O), Mark(X), Mark(X), Mark(O), Mark(X), Mark(X), Empty, Empty};
  }

  /** The position is one that play reaches: it satisfies the invariant. */
  lemma ScenarioReachable()
    ensures Invariant(Game(ScenarioBoard, O, false, Undecided, false))
  {
    var b := ScenarioBoard;
    ScenarioLead();
    assert b[7] == Empty;
    assert !RowOwned(b, 0, X) && !RowOwned(b, 1, X) && !RowOwned(b, 0, O) && !RowOwned(b, 1, O);
  }

  /** O's mark at (2, 1) completes the middle column, so the move scores
      the full 10. */
  lemma ScenarioWinScores()
    ensures WinsFor(Place(ScenarioBoard, Pos(2, 1), O), O)
    ensures Score(ScenarioBoard, Pos(2, 1)) == 10
  {
    var b' := Place(ScenarioBoard, Pos(2, 1), O);
    assert b'[1] == Mark(O) && b'[4] == Mark(O) && b'[7] == Mark(O);
  }

  /** In the position above, (2, 1) and (2, 2) both win at once and score
      10; the AI takes (2, 1), the first in row-major order. */
  lemma ScenarioBestMove()
    ensures BestMove(ScenarioBoard) == Some(Pos(2, 1))
  {
    var b := ScenarioBoard;
    var win := Pos(2, 1);
    ScenarioWinScores();
    assert At(b, win) == Empty;
    var r := BestMove(b).value;
    ScoreBounded(b, r);
    assert Index(r) >= 7 by {
      assert forall i :: 0 <= i < 7 ==> b[i] != Empty;
    }
  }

  /** Played through the AI's turn, that move ends the game with O as winner. */
  lemma WinningMoveScenario()
    ensures var g := Game(ScenarioBoard, O, false, Undecided, false);
            AiTurn(g).Some? && AiTurn(g).value.gameOver && AiTurn(g).value.winner == Won(O)
  {
    var g := Game(ScenarioBoard, O, false, Undecided, false);
    ScenarioBestMove();
    ScenarioWinScores();
    MoveOnEmptyCell(g, Pos(2, 1));
  }
}
