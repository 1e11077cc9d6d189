/** The AI's search: minimax with alpha-beta pruning, the plain minimax it
    must agree with, and the choice of the best move for O.

    The roles are fixed as in the game: O (the AI) maximises, X minimises.
    A position where O holds a line scores 10 - depth, one where X holds a
    line scores depth - 10, a full board scores 0. The game seeds alpha,
    beta and the running best with floating-point infinities; every score
    lies in [-10, 10], so the integer sentinel `Infinity` behaves the same. */
module Engine {
  import opened BoardState

  const Infinity: int := 1000

  function Max(a: int, b: int): int {
    if a >= b then a else b
  }

  function Min(a: int, b: int): int {
    if a <= b then a else b
  }

  /** The depth/board combinations the game reaches: a search started at
      depth 0 never goes past ten plies, so every score is bounded by 10 - depth. */
  predicate InBand(b: Board, depth: int) {
    0 <= depth && depth + CountEmpty(b) <= 10
  }

  predicate ScoreInBand(r: int, depth: int) {
    -(10 - depth) <= r <= 10 - depth
  }

  predicate EmptyIn(b: Board, cells: seq<Pos>) {
    forall n :: 0 <= n < |cells| ==> ValidPos(cells[n]) && At(b, cells[n]) == Empty
  }

  //
  // Minimax with alpha-beta pruning, as the game runs it
  //

  /** The score of `b` with the side given by `maximizing` to move. Terminal
      tests come first, in the order O's line, X's line, full board; otherwise
      every empty cell is tried in row-major order with pruning. */
  function Minimax(b: Board, depth: int, maximizing: bool, alpha: int, beta: int): (r: int)
    ensures InBand(b, depth) ==> ScoreInBand(r, depth)
    decreases CountEmpty(b), 1, 0
  {
    if WinsFor(b, O) then 10 - depth
    else if WinsFor(b, X) then depth - 10
    else if IsBoardFull(b) then 0
    else
      FullIffNoEmptyCells(b);
      if maximizing then MaxLoop(b, EmptyCells(b), depth, alpha, beta, -Infinity)
      else MinLoop(b, EmptyCells(b), depth, alpha, beta, Infinity)
  }

  /** The maximiser's loop over `cells`: try O in each cell, keep the running
      best, raise alpha, and stop as soon as beta <= alpha. */
  function MaxLoop(b: Board, cells: seq<Pos>, depth: int, alpha: int, beta: int, best: int): (r: int)
    requires EmptyIn(b, cells)
    ensures r >= best
    ensures InBand(b, depth) && cells != [] && (best == -Infinity || ScoreInBand(best, depth)) ==>
              ScoreInBand(r, depth)
    decreases CountEmpty(b), 0, |cells|
  {
    if cells == [] then best
    else
      PlaceUsesOneEmpty(b, cells[0], O);
      var score := Minimax(Place(b, cells[0], O), depth + 1, false, alpha, beta);
      var best' := Max(best, score);
      var alpha' := Max(alpha, score);
      if beta <= alpha' then best'
      else MaxLoop(b, cells[1..], depth, alpha', beta, best')
  }

  /** The minimiser's loop over `cells`: try X in each cell, keep the running
      best, lower beta, and stop as soon as beta <= alpha. */
  function MinLoop(b: Board, cells: seq<Pos>, depth: int, alpha: int, beta: int, best: int): (r: int)
    requires EmptyIn(b, cells)
    ensures r <= best
    ensures InBand(b, depth) && cells != [] && (best == Infinity || ScoreInBand(best, depth)) ==>
              ScoreInBand(r, depth)
    decreases CountEmpty(b), 0, |cells|
  {
    if cells == [] then best
    else
      PlaceUsesOneEmpty(b, cells[0], X);
      var score := Minimax(Place(b, cells[0], X), depth + 1, true, alpha, beta);
      var best' := Min(best, score);
      var beta' := Min(beta, score);
      if beta' <= alpha then best'
      else MinLoop(b, cells[1..], depth, alpha, beta', best')
  }

  //
  // Plain minimax: the reference the pruned search must agree with
  //

  /** The game-theoretic value of `b`: every empty cell explored, no pruning. */
  function Value(b: Board, depth: int, maximizing: bool): int
    decreases CountEmpty(b), 1, 0
  {
    if WinsFor(b, O) then 10 - depth
    else if WinsFor(b, X) then depth - 10
    else if IsBoardFull(b) then 0
    else if maximizing then MaxAll(b, EmptyCells(b), depth, -Infinity)
    else MinAll(b, EmptyCells(b), depth, Infinity)
  }

  function MaxAll(b: Board, cells: seq<Pos>, depth: int, best: int): int
    requires EmptyIn(b, cells)
    decreases CountEmpty(b), 0, |cells|
  {
    if cells == [] then best
    else
      PlaceUsesOneEmpty(b, cells[0], O);
      MaxAll(b, cells[1..], depth, Max(best, Value(Place(b, cells[0], O), depth + 1, false)))
  }

  function MinAll(b: Board, cells: seq<Pos>, depth: int, best: int): int
    requires EmptyIn(b, cells)
    decreases CountEmpty(b), 0, |cells|
  {
    if cells == [] then best
    else
      PlaceUsesOneEmpty(b, cells[0], X);
      MinAll(b, cells[1..], depth, Min(best, Value(Place(b, cells[0], X), depth + 1, true)))
  }

  //
  // Best move for the AI
  //

  /** The score the game gives O's move at `c`: O is written there and the
      search starts fresh at depth 0 with X to reply. */
  function Score(b: Board, c: Pos): int
    requires ValidPos(c)
  {
    Minimax(Place(b, c, O), 0, false, -Infinity, Infinity)
  }

  /** Every move's score lies in [-10, 10], so above the starting sentinel. */
  lemma ScoreBounded(b: Board, c: Pos)
    requires ValidPos(c)
    ensures -10 <= Score(b, c) <= 10
  {
    EmptyAtMostNine(Place(b, c, O));
  }

  /** The best-move loop: the first cell whose score is strictly greater
      than every score seen so far replaces the current choice. */
  function BestFrom(b: Board, cells: seq<Pos>, bestScore: int, bestMove: Option<Pos>): (r: Option<Pos>)
    requires BestFromReady(b, cells, bestScore, bestMove)
    ensures r.None? <==> bestMove.None? && cells == []
    ensures r.Some? ==> r == bestMove || r.value in cells
    ensures r.Some? ==> ValidPos(r.value)
    decreases |cells|
  {
    if cells == [] then bestMove
    else
      var c, rest := cells[0], cells[1..];
      var score := Score(b, c);
      ScoreBounded(b, c);
      if score > bestScore then BestFrom(b, rest, score, Some(c))
      else BestFrom(b, rest, bestScore, bestMove)
  }

  /** What the best-move loop keeps between iterations: the cells still to
      try are empty and in row-major order, the choice so far comes before
      all of them, and `bestScore` is its score (or the sentinel before any
      choice). */
  predicate BestFromReady(b: Board, cells: seq<Pos>, bestScore: int, bestMove: Option<Pos>) {
    && EmptyIn(b, cells)
    && (forall n, m :: 0 <= n < m < |cells| ==> Index(cells[n]) < Index(cells[m]))
    && (bestMove.None? ==> bestScore == -Infinity)
    && (bestMove.Some? ==> ValidPos(bestMove.value) && bestScore == Score(b, bestMove.value))
    && (bestMove.Some? ==> forall n :: 0 <= n < |cells| ==> Index(bestMove.value) < Index(cells[n]))
  }

  /** The loop's choice scores at least as much as the running best and as
      every remaining cell, and strictly more than every remaining cell that
      comes before it. */
  lemma {:induction false} BestFromBest(b: Board, cells: seq<Pos>, bestScore: int, bestMove: Option<Pos>)
    requires BestFromReady(b, cells, bestScore, bestMove)
    ensures var r := BestFrom(b, cells, bestScore, bestMove);
            r.Some? ==>
              && bestScore <= Score(b, r.value)
              && (r != bestMove ==> bestScore < Score(b, r.value))
              && (forall c :: c in cells ==> Score(b, c) <= Score(b, r.value))
              && (forall c :: c in cells && Index(c) < Index(r.value) ==> Score(b, c) < Score(b, r.value))
    decreases |cells|
  {
    if cells != [] {
      var c, rest := cells[0], cells[1..];
      var s := Score(b, c);
      ScoreBounded(b, c);
      if s > bestScore {
        assert BestFromReady(b, rest, s, Some(c));
        BestFromBest(b, rest, s, Some(c));
      } else {
        assert BestFromReady(b, rest, bestScore, bestMove);
        BestFromBest(b, rest, bestScore, bestMove);
      }
    }
  }

  /** The AI's move: none exactly when no cell is empty; otherwise an empty
      cell whose score is the greatest over all empty cells, and the first
      such cell in row-major order. */
  function BestMove(b: Board): (r: Option<Pos>)
    ensures r.None? <==> EmptyCells(b) == []
    ensures r.Some? ==> ValidPos(r.value) && At(b, r.value) == Empty
    ensures r.Some? ==> forall c :: c in EmptyCells(b) ==> Score(b, c) <= Score(b, r.value)
    ensures r.Some? ==> forall c :: c in EmptyCells(b) && Index(c) < Index(r.value)
                          ==> Score(b, c) < Score(b, r.value)
  {
    var cells := EmptyCells(b);
    var r := BestFrom(b, cells, -Infinity, None);
    BestFromBest(b, cells, -Infinity, None);
    r
  }
}
