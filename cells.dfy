/** Cells, coordinates and the sets of coordinates a grid is made of. */
module Cells {

  /** A `[row, col]` pair, as the game stores positions. */
  type Pos = (int, int)

  /** The four glyphs a cell of the field can hold. The player and the trail it
      leaves behind share one glyph, '*', so they share one tag here. */
  datatype Cell = Grass | Hat | Hole | Star

  /** The glyph written where the player stands. */
  const Player: Cell := Star
  /** The glyph written on a cell the player has left. */
  const Path: Cell := Star

  /** The character the field is printed with. */
  function Glyph(c: Cell): (g: char)
  {
    match c
    case Hat => '^'
    case Hole => 'O'
    case Grass => '░'
    case Star => '*'
  }

  /** Distinct tags print as distinct characters, and the player and the
      trail print alike. */
  lemma GlyphsDistinct(x: Cell, y: Cell)
    ensures Glyph(x) == Glyph(y) <==> x == y
    ensures Glyph(Player) == Glyph(Path) == '*'
  {
  }

  predicate InGrid(p: Pos, rows: int, cols: int)
  {
    0 <= p.0 < rows && 0 <= p.1 < cols
  }

  /** Every coordinate of a `rows x cols` grid. */
  function AllCells(rows: int, cols: int): (s: set<Pos>)
  {
    set r, c | 0 <= r < rows && 0 <= c < cols :: (r, c)
  }

  /** The coordinates of row `r` of a grid `cols` wide. */
  function RowCells(r: int, cols: int): (s: set<Pos>)
  {
    set c | 0 <= c < cols :: (r, c)
  }

  lemma {:induction false} RowCellsCard(r: int, cols: nat)
    ensures |RowCells(r, cols)| == cols
  {
    if cols == 0 {
      assert RowCells(r, cols) == {};
    } else {
      assert RowCells(r, cols) == RowCells(r, cols - 1) + {(r, cols - 1)};
      RowCellsCard(r, cols - 1);
    }
  }

  /** The last row of a grid, split off from the rows above it. */
  lemma AllCellsSplit(rows: nat, cols: nat)
    requires rows > 0
    ensures AllCells(rows, cols) == AllCells(rows - 1, cols) + RowCells(rows - 1, cols)
    ensures AllCells(rows - 1, cols) * RowCells(rows - 1, cols) == {}
  {
    forall p | p in AllCells(rows, cols)
      ensures p in AllCells(rows - 1, cols) + RowCells(rows - 1, cols)
    {
      if p.0 < rows - 1 {
        assert p in AllCells(rows - 1, cols);
      } else {
        assert p in RowCells(rows - 1, cols);
      }
    }
  }

  /** A `rows x cols` grid has exactly `rows * cols` cells. */
  lemma {:induction false} AllCellsCard(rows: nat, cols: nat)
    ensures |AllCells(rows, cols)| == rows * cols
  {
    if rows == 0 {
      assert AllCells(rows, cols) == {};
    } else {
      AllCellsSplit(rows, cols);
      AllCellsCard(rows - 1, cols);
      RowCellsCard(rows - 1, cols);
      assert (rows - 1) * cols + cols == rows * cols;
    }
  }

  /** Distinct cells of a grid other than the start and one other cell number
      at most `rows * cols - 2`. */
  lemma PlaceableCells(s: set<Pos>, rows: nat, cols: nat, other: Pos)
    requires other != (0, 0) && InGrid(other, rows, cols) && rows >= 1 && cols >= 1
    requires forall p :: p in s ==> InGrid(p, rows, cols) && p != (0, 0) && p != other
    ensures |s| <= rows * cols - 2
  {
    var free := AllCells(rows, cols) - {(0, 0), other};
    assert s <= free;
    AllCellsCard(rows, cols);
    assert {(0, 0), other} <= AllCells(rows, cols);
    assert |free| == rows * cols - 2;
    assert free == s + (free - s);
  }

  /** The coordinates of the cells of `a` that hold `x`. */
  ghost function CellsOf(a: array2<Cell>, x: Cell): (s: set<Pos>)
    reads a
  {
    set r, c | 0 <= r < a.Length0 && 0 <= c < a.Length1 && a[r, c] == x :: (r, c)
  }

  /** `CellsOf` is exactly the set that holds the cells marked `x`. */
  lemma CellsOfIs(a: array2<Cell>, x: Cell, s: set<Pos>)
    requires forall p :: p in s ==> InGrid(p, a.Length0, a.Length1) && a[p.0, p.1] == x
    requires forall r, c :: 0 <= r < a.Length0 && 0 <= c < a.Length1 && a[r, c] == x ==> (r, c) in s
    ensures CellsOf(a, x) == s
  {
    forall p | p in s
      ensures p in CellsOf(a, x)
    {
      var (r, c) := p;
      assert a[r, c] == x;
    }
  }
}
