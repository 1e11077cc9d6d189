/** Mapping a mouse position in the window to a board cell. The grid is
    three cells of 150 pixels, centred horizontally in a 600-pixel-wide
    window and starting 150 pixels from the top. */
module Mouse {
  import opened BoardState

  const Width: int := 600
  const CellSize: int := 150
  const GridOffsetX: int := (Width - CellSize * 3) / 2
  const GridOffsetY: int := 150

  /** The game's grid test: both bounds inclusive. */
  predicate OnGrid(x: int, y: int) {
    && GridOffsetX <= x <= GridOffsetX + CellSize * 3
    && GridOffsetY <= y <= GridOffsetY + CellSize * 3
  }

  /** Strictly inside the grid: the right and bottom edge pixels excluded. */
  predicate InsideGrid(x: int, y: int) {
    && GridOffsetX <= x < GridOffsetX + CellSize * 3
    && GridOffsetY <= y < GridOffsetY + CellSize * 3
  }

  /** The cell whose pixel square contains (x, y). */
  predicate CellCovers(c: Pos, x: int, y: int) {
    && GridOffsetX + CellSize * c.col <= x < GridOffsetX + CellSize * (c.col + 1)
    && GridOffsetY + CellSize * c.row <= y < GridOffsetY + CellSize * (c.row + 1)
  }

  /** The game's mapping, as written: a cell exactly for points on the
      inclusive grid rectangle, namely the one whose pixel square holds the
      point. Because the bounds are inclusive, the last pixel column and row
      map to index 3, one past the board. The operands of the division are
      non-negative here, so the game's floor division and Dafny's agree. */
  function CellFromMouse(x: int, y: int): (r: Option<Pos>)
    ensures r.Some? <==> OnGrid(x, y)
    ensures r.Some? ==> CellCovers(r.value, x, y)
    ensures r.Some? ==> 0 <= r.value.row <= 3 && 0 <= r.value.col <= 3
    ensures r.Some? ==> (ValidPos(r.value) <==> InsideGrid(x, y))
  {
    if OnGrid(x, y) then
      Some(Pos((y - GridOffsetY) / CellSize, (x - GridOffsetX) / CellSize))
    else
      None
  }

  /** Every point on the right edge of the grid maps to column 3, which the
      board does not have; the move that follows then indexes past the end
      of a board row. */
  lemma RightEdgeLeavesBoard(y: int)
    requires GridOffsetY <= y <= GridOffsetY + CellSize * 3
    ensures CellFromMouse(GridOffsetX + CellSize * 3, y).Some?
    ensures CellFromMouse(GridOffsetX + CellSize * 3, y).value.col == 3
    ensures !ValidPos(CellFromMouse(GridOffsetX + CellSize * 3, y).value)
  {
  }

  /** The mapping with exclusive upper bounds: every point it accepts lands
      on a real cell, and it agrees with the game's mapping wherever it
      accepts a point. */
  function CellFromMouseFixed(x: int, y: int): (r: Option<Pos>)
    ensures r.Some? <==> InsideGrid(x, y)
    ensures r.Some? ==> ValidPos(r.value) && CellCovers(r.value, x, y)
    ensures r.Some? ==> CellFromMouse(x, y) == r
  {
    if InsideGrid(x, y) then
      Some(Pos((y - GridOffsetY) / CellSize, (x - GridOffsetX) / CellSize))
    else
      None
  }
}
