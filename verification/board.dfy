/** The board of the game: nine cells stored row by row, the two players,
    the eight winning lines, and the empty-cell scan the search iterates over.
    The game keeps a 3x3 list of integers (0 empty, 1 for X, 2 for O); here a
    cell at (row, col) lives at index 3 * row + col of a nine-element sequence. */
module BoardState {

  datatype Option<T> = None | Some(value: T)

  /** X is the human and moves first; O is the AI. */
  datatype Player = X | O

  /** The integer the game stores for a player's mark. */
  function Code(p: Player): int {
    if p == X then 1 else 2
  }

  /** The player to move after `p`; the game computes it as `3 - p`. */
  function Other(p: Player): (q: Player)
    ensures q != p
    ensures Code(q) == 3 - Code(p)
  {
    if p == X then O else X
  }

  datatype Cell = Empty | Mark(owner: Player)

  datatype Pos = Pos(row: int, col: int)

  predicate ValidPos(c: Pos) {
    0 <= c.row < 3 && 0 <= c.col < 3
  }

  function Index(c: Pos): nat
    requires ValidPos(c)
  {
    3 * c.row + c.col
  }

  function PosOf(i: nat): (c: Pos)
    requires i < 9
    ensures ValidPos(c) && Index(c) == i
  {
    Pos(i / 3, i % 3)
  }

  type Board = b: seq<Cell> | |b| == 9 witness seq(9, i => Empty)

  function At(b: Board, c: Pos): Cell
    requires ValidPos(c)
  {
    b[Index(c)]
  }

  /** The board of a fresh game: all nine cells empty. */
  const EmptyBoard: Board := [Empty, Empty, Empty, Empty, Empty, Empty, Empty, Empty, Empty]

  /** The board with `p`'s mark written at `c`. */
  function Place(b: Board, c: Pos, p: Player): Board
    requires ValidPos(c)
  {
    b[Index(c) := Mark(p)]
  }

  /** The board with the cell at `c` cleared: the search's undo step. */
  function Clear(b: Board, c: Pos): Board
    requires ValidPos(c)
  {
    b[Index(c) := Empty]
  }

  /** Number of cells holding `m`. */
  function Count(b: seq<Cell>, m: Cell): nat {
    multiset(b)[m]
  }

  function CountEmpty(b: seq<Cell>): nat {
    Count(b, Empty)
  }

  //
  // Winning lines
  //

  /** Three cell indices forming a row, a column or a diagonal. */
  datatype Line = Line(i: nat, j: nat, k: nat)

  /** The reference table of the eight lines: rows, columns, diagonals. */
  const Lines: seq<Line> := [
    Line(0, 1, 2), Line(3, 4, 5), Line(6, 7, 8),
    Line(0, 3, 6), Line(1, 4, 7), Line(2, 5, 8),
    Line(0, 4, 8), Line(2, 4, 6)
  ]

  predicate Owns(b: seq<Cell>, l: Line, p: Player) {
    l.i < |b| && l.j < |b| && l.k < |b|
    && b[l.i] == Mark(p) && b[l.j] == Mark(p) && b[l.k] == Mark(p)
  }

  /** True when `p` holds every cell of line `n` of the table. */
  predicate HasLine(b: Board, n: int, p: Player) {
    0 <= n < |Lines| && Owns(b, Lines[n], p)
  }

  predicate RowOwned(b: Board, row: int, p: Player)
    requires 0 <= row < 3
  {
    b[3 * row] == Mark(p) && b[3 * row + 1] == Mark(p) && b[3 * row + 2] == Mark(p)
  }

  predicate ColOwned(b: Board, col: int, p: Player)
    requires 0 <= col < 3
  {
    b[col] == Mark(p) && b[3 + col] == Mark(p) && b[6 + col] == Mark(p)
  }

  /** The game's line test for one player: rows, then columns, then the
      main diagonal and the anti-diagonal. It holds exactly when one of the
      eight lines of the table carries `p` in all three cells. */
  function WinsFor(b: Board, p: Player): (won: bool)
    ensures won <==> exists n :: HasLine(b, n, p)
  {
    var rows := RowOwned(b, 0, p) || RowOwned(b, 1, p) || RowOwned(b, 2, p);
    var cols := ColOwned(b, 0, p) || ColOwned(b, 1, p) || ColOwned(b, 2, p);
    var diag := b[0] == Mark(p) && b[4] == Mark(p) && b[8] == Mark(p);
    var anti := b[2] == Mark(p) && b[4] == Mark(p) && b[6] == Mark(p);
    LinesAgree(b, p);
    rows || cols || diag || anti
  }

  lemma LinesAgree(b: Board, p: Player)
    ensures (exists n :: HasLine(b, n, p)) <==>
              (RowOwned(b, 0, p) || RowOwned(b, 1, p) || RowOwned(b, 2, p)
               || ColOwned(b, 0, p) || ColOwned(b, 1, p) || ColOwned(b, 2, p)
               || (b[0] == Mark(p) && b[4] == Mark(p) && b[8] == Mark(p))
               || (b[2] == Mark(p) && b[4] == Mark(p) && b[6] == Mark(p)))
  {
    if exists n :: HasLine(b, n, p) {
      var n :| HasLine(b, n, p);
      assert n in {0, 1, 2, 3, 4, 5, 6, 7};
    }
    if RowOwned(b, 0, p) { assert HasLine(b, 0, p); }
    if RowOwned(b, 1, p) { assert HasLine(b, 1, p); }
    if RowOwned(b, 2, p) { assert HasLine(b, 2, p); }
    if ColOwned(b, 0, p) { assert HasLine(b, 3, p); }
    if ColOwned(b, 1, p) { assert HasLine(b, 4, p); }
    if ColOwned(b, 2, p) { assert HasLine(b, 5, p); }
    if b[0] == Mark(p) && b[4] == Mark(p) && b[8] == Mark(p) { assert HasLine(b, 6, p); }
    if b[2] == Mark(p) && b[4] == Mark(p) && b[6] == Mark(p) { assert HasLine(b, 7, p); }
  }

  //
  // Full board and empty cells
  //

  /** The game's full-board test: no cell is empty. */
  function IsBoardFull(b: Board): (full: bool)
    ensures full <==> forall i :: 0 <= i < 9 ==> b[i] != Empty
  {
    CountEmpty(b) == 0
  }

  /** The empty cells from index `from` on, in row-major order. */
  function EmptyCellsFrom(b: Board, from: nat): (cells: seq<Pos>)
    requires from <= 9
    ensures forall n :: 0 <= n < |cells| ==>
              ValidPos(cells[n]) && from <= Index(cells[n]) && b[Index(cells[n])] == Empty
    ensures forall i :: from <= i < 9 && b[i] == Empty ==> PosOf(i) in cells
    ensures forall n, m :: 0 <= n < m < |cells| ==> Index(cells[n]) < Index(cells[m])
    decreases 9 - from
  {
    if from == 9 then []
    else if b[from] == Empty then [PosOf(from)] + EmptyCellsFrom(b, from + 1)
    else EmptyCellsFrom(b, from + 1)
  }

  /** The game's list of empty cells: each empty cell exactly once, row by
      row and left to right within a row. */
  function EmptyCells(b: Board): (cells: seq<Pos>)
    ensures forall n :: 0 <= n < |cells| ==> ValidPos(cells[n]) && At(b, cells[n]) == Empty
    ensures forall c :: ValidPos(c) && At(b, c) == Empty ==> c in cells
    ensures forall n, m :: 0 <= n < m < |cells| ==> Index(cells[n]) < Index(cells[m])
  {
    var cells := EmptyCellsFrom(b, 0);
    assert forall c :: ValidPos(c) ==> c == PosOf(Index(c));
    cells
  }

  /** The scan finds nothing exactly when the board is full. */
  lemma FullIffNoEmptyCells(b: Board)
    ensures IsBoardFull(b) <==> EmptyCells(b) == []
  {
    var cells := EmptyCells(b);
    if !IsBoardFull(b) {
      var i :| 0 <= i < 9 && b[i] == Empty;
      assert PosOf(i) in cells;
    }
  }

  /** Writing a mark into an empty cell uses up exactly one empty cell. */
  lemma PlaceUsesOneEmpty(b: Board, c: Pos, p: Player)
    requires ValidPos(c) && At(b, c) == Empty
    ensures CountEmpty(Place(b, c, p)) == CountEmpty(b) - 1
    ensures Count(Place(b, c, p), Mark(p)) == Count(b, Mark(p)) + 1
    ensures Count(Place(b, c, p), Mark(Other(p))) == Count(b, Mark(Other(p)))
  {
    assert multiset(Place(b, c, p)) == multiset(b) - multiset{Empty} + multiset{Mark(p)};
  }

  /** A sequence holding only `m` counts `m` once per element and nothing
      else. */
  lemma {:induction false} CountUniform(s: seq<Cell>, m: Cell, m': Cell)
    requires forall i :: 0 <= i < |s| ==> s[i] == m
    ensures Count(s, m) == |s|
    ensures m' != m ==> Count(s, m') == 0
  {
    if s != [] {
      assert s == s[..|s| - 1] + [m];
      CountUniform(s[..|s| - 1], m, m');
    }
  }

  /** A fresh board has nine empty cells, no marks and no line. */
  lemma EmptyBoardClear(p: Player)
    ensures CountEmpty(EmptyBoard) == 9 && Count(EmptyBoard, Mark(p)) == 0
    ensures !WinsFor(EmptyBoard, p)
  {
    var b := EmptyBoard;
    CountUniform(b, Empty, Mark(p));
    assert !RowOwned(b, 0, p) && !RowOwned(b, 1, p) && !RowOwned(b, 2, p);
  }

  /** A nine-cell board has at most nine empty cells. */
  lemma EmptyAtMostNine(b: Board)
    ensures CountEmpty(b) <= 9
  {
    assert |multiset(b)| == 9;
    assert multiset(b)[Empty] <= |multiset(b)|;
  }

  /** Writing `p`'s mark never completes a line for anyone else. */
  lemma {:induction false} PlaceNoOtherLine(b: Board, c: Pos, p: Player, q: Player)
    requires ValidPos(c) && q != p
    ensures WinsFor(Place(b, c, p), q) ==> WinsFor(b, q)
  {
    var b' := Place(b, c, p);
    if WinsFor(b', q) {
      var n :| HasLine(b', n, q);
      assert HasLine(b, n, q);
    }
  }

  /** Clearing a cell that was just written restores the board exactly. */
  lemma {:induction false} ClearUndoesPlace(b: Board, c: Pos, p: Player)
    requires ValidPos(c) && At(b, c) == Empty
    ensures Clear(Place(b, c, p), c) == b
  {
    var b' := Clear(Place(b, c, p), c);
    assert forall i :: 0 <= i < 9 ==> b'[i] == b[i];
  }
}
