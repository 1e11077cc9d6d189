/** Alpha-beta pruning only skips branches that cannot change the result:
    started with the full window, the pruned search returns exactly the
    plain minimax value, so the AI's choice is optimal under plain minimax. */
module Pruning {
  import opened BoardState
  import opened Engine

  /** The fail-soft window property: inside (alpha, beta) the pruned score is
      the true value; at or below alpha it stays at or below alpha; at or
      above beta it stays at or above beta. */
  predicate WindowAgrees(alpha: int, beta: int, v: int, r: int) {
    && (v <= alpha ==> r <= alpha)
    && (beta <= v ==> beta <= r)
    && (alpha < v < beta ==> r == v)
  }

  /** Folding the maximum from a larger start: the start can be pulled out. */
  lemma {:induction false} MaxAllShift(b: Board, cells: seq<Pos>, depth: int, a: int, c: int)
    requires EmptyIn(b, cells)
    ensures MaxAll(b, cells, depth, Max(c, a)) == Max(a, MaxAll(b, cells, depth, c))
    decreases |cells|
  {
    if cells != [] {
      PlaceUsesOneEmpty(b, cells[0], O);
      var v := Value(Place(b, cells[0], O), depth + 1, false);
      assert Max(Max(c, a), v) == Max(Max(c, v), a);
      MaxAllShift(b, cells[1..], depth, a, Max(c, v));
    }
  }

  lemma {:induction false} MinAllShift(b: Board, cells: seq<Pos>, depth: int, a: int, c: int)
    requires EmptyIn(b, cells)
    ensures MinAll(b, cells, depth, Min(c, a)) == Min(a, MinAll(b, cells, depth, c))
    decreases |cells|
  {
    if cells != [] {
      PlaceUsesOneEmpty(b, cells[0], X);
      var v := Value(Place(b, cells[0], X), depth + 1, true);
      assert Min(Min(c, a), v) == Min(Min(c, v), a);
      MinAllShift(b, cells[1..], depth, a, Min(c, v));
    }
  }

  /** The pruned search agrees with plain minimax on every window inside
      the sentinels. */
  lemma {:induction false} PruningSound(b: Board, depth: int, maximizing: bool, alpha: int, beta: int)
    requires -Infinity <= alpha < beta <= Infinity
    ensures WindowAgrees(alpha, beta, Value(b, depth, maximizing), Minimax(b, depth, maximizing, alpha, beta))
    decreases CountEmpty(b), 1, 0
  {
    if !WinsFor(b, O) && !WinsFor(b, X) && !IsBoardFull(b) {
      if maximizing {
        MaxLoopSound(b, EmptyCells(b), depth, alpha, beta, -Infinity);
      } else {
        MinLoopSound(b, EmptyCells(b), depth, alpha, beta, Infinity);
      }
    }
  }

  /** One step of the maximiser's loop, as integer reasoning: `t` is the
      child's true value and `s` its pruned score, `w` the plain maximum over
      the remaining cells, `r` the loop's result. */
  lemma MaxStep(alpha: int, beta: int, best: int, t: int, s: int, w: int, r: int)
    requires alpha < beta && best <= alpha
    requires WindowAgrees(alpha, beta, t, s)
    requires beta <= Max(alpha, s) ==> r == Max(best, s)
    requires beta > Max(alpha, s) ==> WindowAgrees(Max(alpha, s), beta, Max(s, w), r) && r >= Max(best, s)
    ensures WindowAgrees(alpha, beta, Max(t, w), r)
  {
  }

  lemma MinStep(alpha: int, beta: int, best: int, t: int, s: int, w: int, r: int)
    requires alpha < beta && beta <= best
    requires WindowAgrees(alpha, beta, t, s)
    requires Min(beta, s) <= alpha ==> r == Min(best, s)
    requires Min(beta, s) > alpha ==> WindowAgrees(alpha, Min(beta, s), Min(s, w), r) && r <= Min(best, s)
    ensures WindowAgrees(alpha, beta, Min(t, w), r)
  {
  }

  lemma MaxLoopUnfold(b: Board, cells: seq<Pos>, depth: int, alpha: int, beta: int, best: int)
    requires EmptyIn(b, cells) && cells != []
    ensures var s := Minimax(Place(b, cells[0], O), depth + 1, false, alpha, beta);
            && MaxAll(b, cells, depth, best)
                 == MaxAll(b, cells[1..], depth, Max(best, Value(Place(b, cells[0], O), depth + 1, false)))
            && MaxLoop(b, cells, depth, alpha, beta, best)
                 == if beta <= Max(alpha, s) then Max(best, s)
                    else MaxLoop(b, cells[1..], depth, Max(alpha, s), beta, Max(best, s))
  {
  }

  lemma MinLoopUnfold(b: Board, cells: seq<Pos>, depth: int, alpha: int, beta: int, best: int)
    requires EmptyIn(b, cells) && cells != []
    ensures var s := Minimax(Place(b, cells[0], X), depth + 1, true, alpha, beta);
            && MinAll(b, cells, depth, best)
                 == MinAll(b, cells[1..], depth, Min(best, Value(Place(b, cells[0], X), depth + 1, true)))
            && MinLoop(b, cells, depth, alpha, beta, best)
                 == if Min(beta, s) <= alpha then Min(best, s)
                    else MinLoop(b, cells[1..], depth, alpha, Min(beta, s), Min(best, s))
  {
  }

  /** One iteration of the maximiser's loop preserves the window property,
      given it for the child just explored and for the cells after it. */
  lemma MaxLoopStep(b: Board, cells: seq<Pos>, depth: int, alpha: int, beta: int, best: int)
    requires EmptyIn(b, cells) && cells != []
    requires alpha < beta && best <= alpha
    requires WindowAgrees(alpha, beta, Value(Place(b, cells[0], O), depth + 1, false),
                          Minimax(Place(b, cells[0], O), depth + 1, false, alpha, beta))
    requires var s := Minimax(Place(b, cells[0], O), depth + 1, false, alpha, beta);
             beta > Max(alpha, s) ==>
               WindowAgrees(Max(alpha, s), beta, MaxAll(b, cells[1..], depth, Max(best, s)),
                            MaxLoop(b, cells[1..], depth, Max(alpha, s), beta, Max(best, s)))
    ensures WindowAgrees(alpha, beta, MaxAll(b, cells, depth, best), MaxLoop(b, cells, depth, alpha, beta, best))
  {
    var rest := cells[1..];
    var child := Place(b, cells[0], O);
    var t := Value(child, depth + 1, false);
    var s := Minimax(child, depth + 1, false, alpha, beta);
    var w := MaxAll(b, rest, depth, best);
    MaxLoopUnfold(b, cells, depth, alpha, beta, best);
    MaxAllShift(b, rest, depth, t, best);
    MaxAllShift(b, rest, depth, s, best);
    MaxStep(alpha, beta, best, t, s, w, MaxLoop(b, cells, depth, alpha, beta, best));
  }

  lemma MinLoopStep(b: Board, cells: seq<Pos>, depth: int, alpha: int, beta: int, best: int)
    requires EmptyIn(b, cells) && cells != []
    requires alpha < beta && beta <= best
    requires WindowAgrees(alpha, beta, Value(Place(b, cells[0], X), depth + 1, true),
                          Minimax(Place(b, cells[0], X), depth + 1, true, alpha, beta))
    requires var s := Minimax(Place(b, cells[0], X), depth + 1, true, alpha, beta);
             Min(beta, s) > alpha ==>
               WindowAgrees(alpha, Min(beta, s), MinAll(b, cells[1..], depth, Min(best, s)),
                            MinLoop(b, cells[1..], depth, alpha, Min(beta, s), Min(best, s)))
    ensures WindowAgrees(alpha, beta, MinAll(b, cells, depth, best), MinLoop(b, cells, depth, alpha, beta, best))
  {
    var rest := cells[1..];
    var child := Place(b, cells[0], X);
    var t := Value(child, depth + 1, true);
    var s := Minimax(child, depth + 1, true, alpha, beta);
    var w := MinAll(b, rest, depth, best);
    MinLoopUnfold(b, cells, depth, alpha, beta, best);
    MinAllShift(b, rest, depth, t, best);
    MinAllShift(b, rest, depth, s, best);
    MinStep(alpha, beta, best, t, s, w, MinLoop(b, cells, depth, alpha, beta, best));
  }

  lemma {:induction false} MaxLoopSound(b: Board, cells: seq<Pos>, depth: int, alpha: int, beta: int, best: int)
    requires EmptyIn(b, cells)
    requires -Infinity <= alpha < beta <= Infinity
    requires best <= alpha
    ensures WindowAgrees(alpha, beta, MaxAll(b, cells, depth, best), MaxLoop(b, cells, depth, alpha, beta, best))
    decreases CountEmpty(b), 0, |cells|
  {
    if cells != [] {
      PlaceUsesOneEmpty(b, cells[0], O);
      var child := Place(b, cells[0], O);
      PruningSound(child, depth + 1, false, alpha, beta);
      var s := Minimax(child, depth + 1, false, alpha, beta);
      var alpha', best' := Max(alpha, s), Max(best, s);
      assert EmptyIn(b, cells[1..]);
      assert -Infinity <= alpha' && best' <= alpha';
      if alpha' < beta {
        MaxLoopSound(b, cells[1..], depth, alpha', beta, best');
      }
      MaxLoopStep(b, cells, depth, alpha, beta, best);
    }
  }

  lemma {:induction false} MinLoopSound(b: Board, cells: seq<Pos>, depth: int, alpha: int, beta: int, best: int)
    requires EmptyIn(b, cells)
    requires -Infinity <= alpha < beta <= Infinity
    requires beta <= best
    ensures WindowAgrees(alpha, beta, MinAll(b, cells, depth, best), MinLoop(b, cells, depth, alpha, beta, best))
    decreases CountEmpty(b), 0, |cells|
  {
    if cells != [] {
      PlaceUsesOneEmpty(b, cells[0], X);
      var child := Place(b, cells[0], X);
      PruningSound(child, depth + 1, true, alpha, beta);
      var s := Minimax(child, depth + 1, true, alpha, beta);
      var beta', best' := Min(beta, s), Min(best, s);
      assert EmptyIn(b, cells[1..]);
      assert beta' <= Infinity && beta' <= best';
      if alpha < beta' {
        MinLoopSound(b, cells[1..], depth, alpha, beta', best');
      }
      MinLoopStep(b, cells, depth, alpha, beta, best);
    }
  }

  /** Called with the full window, as the game calls it, the pruned search
      returns exactly the plain minimax value. */
  lemma PruningExact(b: Board, depth: int, maximizing: bool)
    requires InBand(b, depth)
    ensures Minimax(b, depth, maximizing, -Infinity, Infinity) == Value(b, depth, maximizing)
  {
    PruningSound(b, depth, maximizing, -Infinity, Infinity);
  }

  /** The AI's choice is optimal under plain minimax too: no empty cell has a
      greater unpruned value, and every earlier empty cell has a smaller one. */
  lemma BestMoveOptimal(b: Board)
    ensures BestMove(b).Some? ==>
              forall c :: c in EmptyCells(b) ==>
                Value(Place(b, c, O), 0, false) <= Value(Place(b, BestMove(b).value, O), 0, false)
    ensures BestMove(b).Some? ==>
              forall c :: c in EmptyCells(b) && Index(c) < Index(BestMove(b).value) ==>
                Value(Place(b, c, O), 0, false) < Value(Place(b, BestMove(b).value, O), 0, false)
  {
    forall c | ValidPos(c)
      ensures Score(b, c) == Value(Place(b, c, O), 0, false)
    {
      EmptyAtMostNine(Place(b, c, O));
      PruningExact(Place(b, c, O), 0, false);
    }
  }
}
