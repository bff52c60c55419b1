/** The field generator: a `rows x cols` field of grass with one hat, a number
    of holes and the player at the start cell `(0, 0)`.

    The generator draws random coordinates and retries until a draw is
    acceptable. Here the random source is a finite sequence of draws, each a
    coordinate inside the grid, consumed in order. A run that needs more draws
    than the sequence holds is a run that has not finished: the generator then
    reports `ok == false`. A run that never finishes for any draws is one whose
    result is `false` for every sequence. */
module Generator {
  import opened Cells

  /** The number of holes asked for: `percentHoles` percent of `totalCells`,
      rounded down. */
  function HoleCount(percentHoles: int, totalCells: nat): (n: int)
    ensures n * 100 <= percentHoles * totalCells < n * 100 + 100
    ensures 0 <= percentHoles ==> 0 <= n
  {
    (percentHoles * totalCells) / 100
  }

  /** On a square field, as the start dialogue builds it, whose side is at
      least 2 (the dialogue does not check this), and with the percentage
      clamped to 0..50 as the dialogue does, the holes asked for always fit in
      the cells other than the start and the hat, and some draws let the
      generator finish. */
  lemma ClampedHolesFit(size: int, percentHoles: int)
    requires size >= 2 && 0 <= percentHoles <= 50
    ensures HoleCount(percentHoles, size * size) <= size * size - 2
    ensures exists draws: seq<Pos> ::
      (forall i :: 0 <= i < |draws| ==> InGrid(draws[i], size, size)) &&
      Finishes(draws, HoleCount(percentHoles, size * size))
  {
    var t := size * size;
    var n := HoleCount(percentHoles, t);
    assert t >= 4 by {
      assert size * size >= 2 * size;
    }
    assert percentHoles * t <= 50 * t;
    assert n * 100 <= 50 * t;
    CanFinish(size, size, n);
  }

  /** What the generator writes at `p`, given where the hat and the holes went. */
  function Layout(p: Pos, hat: Pos, holes: set<Pos>): (cell: Cell)
  {
    if p == (0, 0) then Player
    else if p == hat then Hat
    else if p in holes then Hole
    else Grass
  }

  /** On a field laid out from `hat` and `holes`, off the start and apart,
      the player's cell is the start, the hat's cell is `hat` and the hole
      cells are `holes`. */
  lemma LayoutCells(field: array2<Cell>, hat: Pos, holes: set<Pos>)
    requires InGrid(hat, field.Length0, field.Length1) && hat != (0, 0) && field.Length0 >= 1 && field.Length1 >= 1
    requires forall p :: p in holes ==> InGrid(p, field.Length0, field.Length1) && p != (0, 0) && p != hat
    requires forall r, c :: 0 <= r < field.Length0 && 0 <= c < field.Length1 ==> field[r, c] == Layout((r, c), hat, holes)
    ensures CellsOf(field, Player) == {(0, 0)} && CellsOf(field, Hat) == {hat} && CellsOf(field, Hole) == holes
  {
    CellsOfIs(field, Player, {(0, 0)});
    CellsOfIs(field, Hat, {hat});
    CellsOfIs(field, Hole, holes);
  }

  /** The index of the first draw that is not the start cell, or `|draws|`
      when there is none. */
  function FirstOffStart(draws: seq<Pos>): (i: nat)
    ensures i <= |draws|
    ensures forall j :: 0 <= j < i ==> draws[j] == (0, 0)
    ensures i < |draws| ==> draws[i] != (0, 0)
  {
    if draws == [] then 0
    else if draws[0] != (0, 0) then 0
    else 1 + FirstOffStart(draws[1..])
  }

  /** The distinct cells hit by `draws[from..to]` other than the start and
      the hat. */
  ghost function FreeDraws(draws: seq<Pos>, from: nat, to: nat, hat: Pos): (s: set<Pos>)
    requires from <= to <= |draws|
  {
    set k | from <= k < to && draws[k] != (0, 0) && draws[k] != hat :: draws[k]
  }

  lemma FreeDrawsStep(draws: seq<Pos>, from: nat, to: nat, hat: Pos)
    requires from <= to < |draws|
    ensures FreeDraws(draws, from, to + 1, hat) ==
      FreeDraws(draws, from, to, hat) + (if draws[to] != (0, 0) && draws[to] != hat then {draws[to]} else {})
  {
  }

  lemma FreeDrawsGrow(draws: seq<Pos>, from: nat, to: nat, to': nat, hat: Pos)
    requires from <= to <= to' <= |draws|
    ensures |FreeDraws(draws, from, to, hat)| <= |FreeDraws(draws, from, to', hat)|
  {
    var s, s' := FreeDraws(draws, from, to, hat), FreeDraws(draws, from, to', hat);
    assert s <= s';
    assert s' == s + (s' - s);
  }

  /** A run of the generator on `draws` finishes exactly when some draw is off
      the start cell and the draws after it hit at least `numberOfHoles`
      distinct cells other than the start and that hat. */
  ghost predicate Finishes(draws: seq<Pos>, numberOfHoles: int)
  {
    var i := FirstOffStart(draws);
    i < |draws| && |FreeDraws(draws, i + 1, |draws|, draws[i])| >= numberOfHoles
  }

  /** The cells of a finite set, listed in some order. */
  ghost function Listed(s: set<Pos>): (xs: seq<Pos>)
  {
    if s == {} then [] else var x :| x in s; [x] + Listed(s - {x})
  }

  lemma {:induction false} ListedIs(s: set<Pos>)
    ensures forall p :: p in Listed(s) <==> p in s
  {
    if s != {} {
      var x := Listed(s)[0];
      assert Listed(s) == [x] + Listed(s - {x});
      ListedIs(s - {x});
    }
  }

  /** Drawing `other` and then every cell of the grid: the hat lands on
      `other` at once, and the later draws hit every cell but the start and
      the hat. */
  lemma AllDrawn(rows: int, cols: int, other: Pos, draws: seq<Pos>)
    requires rows >= 1 && cols >= 1 && other != (0, 0) && InGrid(other, rows, cols)
    requires draws == [other] + Listed(AllCells(rows, cols))
    ensures forall i :: 0 <= i < |draws| ==> InGrid(draws[i], rows, cols)
    ensures FirstOffStart(draws) == 0
    ensures |FreeDraws(draws, 1, |draws|, other)| == rows * cols - 2
  {
    var cells := AllCells(rows, cols);
    ListedIs(cells);
    forall i | 1 <= i < |draws|
      ensures InGrid(draws[i], rows, cols)
    {
      assert draws[i] in Listed(cells);
    }
    var free := FreeDraws(draws, 1, |draws|, other);
    var goal := cells - {(0, 0), other};
    forall p | p in goal
      ensures p in free
    {
      assert p in Listed(cells);
      var j :| 0 <= j < |Listed(cells)| && Listed(cells)[j] == p;
      assert draws[j + 1] == p;
    }
    forall p | p in free
      ensures p in goal
    {
      var k :| 1 <= k < |draws| && draws[k] != (0, 0) && draws[k] != other && draws[k] == p;
      assert draws[k] in Listed(cells);
    }
    assert free == goal;
    AllCellsCard(rows, cols);
    assert {(0, 0), other} <= cells;
  }

  /** Any request the other cells can hold lets the generator finish, on
      some sequence of draws: first a cell off the start, then every cell. */
  lemma CanFinish(rows: int, cols: int, numberOfHoles: int)
    requires rows >= 1 && cols >= 1 && rows * cols >= 2 && numberOfHoles <= rows * cols - 2
    ensures exists draws: seq<Pos> ::
      (forall i :: 0 <= i < |draws| ==> InGrid(draws[i], rows, cols)) && Finishes(draws, numberOfHoles)
  {
    var other := if cols >= 2 then (0, 1) else (1, 0);
    assert rows >= 2 || cols >= 2;
    var draws := [other] + Listed(AllCells(rows, cols));
    AllDrawn(rows, cols, other, draws);
    assert Finishes(draws, numberOfHoles);
  }

  /** On a one-cell field every draw is the start cell: the hat loop never ends. */
  lemma OneCellNeverFinishes(draws: seq<Pos>, rows: int, cols: int, numberOfHoles: int)
    requires rows >= 1 && cols >= 1 && rows * cols == 1
    requires forall i :: 0 <= i < |draws| ==> InGrid(draws[i], rows, cols)
    ensures !Finishes(draws, numberOfHoles)
  {
  }

  /** More holes than cells other than the start and the hat: the hole loop
      never ends. */
  lemma TooManyHolesNeverFinish(draws: seq<Pos>, rows: int, cols: int, numberOfHoles: int)
    requires rows >= 1 && cols >= 1 && numberOfHoles > rows * cols - 2
    requires forall i :: 0 <= i < |draws| ==> InGrid(draws[i], rows, cols)
    ensures !Finishes(draws, numberOfHoles)
  {
    var i := FirstOffStart(draws);
    if i < |draws| {
      var free := FreeDraws(draws, i + 1, |draws|, draws[i]);
      forall p | p in free
        ensures InGrid(p, rows, cols) && p != (0, 0) && p != draws[i]
      {
        var k :| i + 1 <= k < |draws| && draws[k] != (0, 0) && draws[k] != draws[i] && draws[k] == p;
      }
      PlaceableCells(free, rows, cols, draws[i]);
    }
  }

  /** The hat loop: draw until a draw is not the start cell. `used` is the
      number of draws consumed. */
  method DrawHat(rows: int, cols: int, draws: seq<Pos>) returns (ok: bool, hat: Pos, used: nat)
    requires rows >= 1 && cols >= 1
    requires forall i :: 0 <= i < |draws| ==> InGrid(draws[i], rows, cols)
    ensures ok <==> FirstOffStart(draws) < |draws|
    ensures !ok ==> used == |draws|
    ensures ok ==> used == FirstOffStart(draws) + 1 && hat == draws[used - 1]
    ensures ok ==> hat != (0, 0) && InGrid(hat, rows, cols)
  {
    if |draws| == 0 {
      return false, (0, 0), 0;
    }
    hat := draws[0];
    used := 1;
    while hat == (0, 0)
      invariant 1 <= used <= |draws|
      invariant hat == draws[used - 1]
      invariant forall j :: 0 <= j < used - 1 ==> draws[j] == (0, 0)
      decreases |draws| - used
    {
      if used == |draws| {
        ok := false;
        return;
      }
      hat := draws[used];
      used := used + 1;
    }
    ok := true;
  }

  /** The hole loop, on a field holding only the hat and grass: draw from
      `draws[from..]` until `numberOfHoles` holes stand on cells that were
      grass and are not the start cell. The holes are the free cells drawn. */
  method PlaceHoles(field: array2<Cell>, hat: Pos, numberOfHoles: int, draws: seq<Pos>, from: nat)
    returns (ok: bool, used: nat, ghost holes: set<Pos>)
    requires InGrid(hat, field.Length0, field.Length1) && hat != (0, 0)
    requires from <= |draws|
    requires forall i :: 0 <= i < |draws| ==> InGrid(draws[i], field.Length0, field.Length1)
    requires forall r, c :: 0 <= r < field.Length0 && 0 <= c < field.Length1 ==>
      field[r, c] == if (r, c) == hat then Hat else Grass
    modifies field
    ensures from <= used <= |draws|
    ensures holes == FreeDraws(draws, from, used, hat)
    ensures !ok ==> used == |draws| && |holes| < numberOfHoles
    ensures ok ==> |holes| == if numberOfHoles < 0 then 0 else numberOfHoles
    ensures forall p :: p in holes ==> InGrid(p, field.Length0, field.Length1) && p != (0, 0) && p != hat
    ensures forall r, c :: 0 <= r < field.Length0 && 0 <= c < field.Length1 ==>
      field[r, c] == if (r, c) == hat then Hat else if (r, c) in holes then Hole else Grass
  {
    var holesPlaced := 0;
    used := from;
    holes := {};
    while holesPlaced < numberOfHoles
      invariant from <= used <= |draws|
      invariant 0 <= holesPlaced == |holes|
      invariant holesPlaced <= if numberOfHoles < 0 then 0 else numberOfHoles
      invariant holes == FreeDraws(draws, from, used, hat)
      invariant forall p :: p in holes ==> InGrid(p, field.Length0, field.Length1) && p != (0, 0) && p != hat
      invariant forall r, c :: 0 <= r < field.Length0 && 0 <= c < field.Length1 ==>
        field[r, c] == if (r, c) == hat then Hat else if (r, c) in holes then Hole else Grass
      decreases |draws| - used
    {
      if used == |draws| {
        ok := false;
        return;
      }
      FreeDrawsStep(draws, from, used, hat);
      var (row, col) := draws[used];
      used := used + 1;
      if (row != 0 || col != 0) && field[row, col] != Hat && field[row, col] != Hole {
        field[row, col] := Hole;
        holesPlaced := holesPlaced + 1;
        holes := holes + {(row, col)};
      }
    }
    ok := true;
  }

  /** The generator returns `field` (and reports where the hat went). `used`
      is the number of draws consumed; `holes` names the cells that became
      holes. */
  method GenerateField(rows: int, cols: int, percentHoles: int, draws: seq<Pos>)
    returns (ok: bool, field: array2<Cell>, hat: Pos, used: nat, ghost holes: set<Pos>)
    requires rows >= 1 && cols >= 1
    requires forall i :: 0 <= i < |draws| ==> InGrid(draws[i], rows, cols)
    ensures fresh(field) && field.Length0 == rows && field.Length1 == cols
    ensures used <= |draws|
    // the run finishes exactly when the draws hold enough acceptable cells
    ensures ok <==> Finishes(draws, HoleCount(percentHoles, rows * cols))
    // the hat loop cannot end on a one-cell field
    ensures rows * cols == 1 ==> !ok
    // the hole loop cannot end when more holes are asked for than there are free cells
    ensures HoleCount(percentHoles, rows * cols) > rows * cols - 2 ==> !ok
    // the hat is the first draw off the start; the holes are the free cells drawn after it
    ensures ok ==> hat == draws[FirstOffStart(draws)]
    ensures ok ==> FirstOffStart(draws) < used && holes == FreeDraws(draws, FirstOffStart(draws) + 1, used, hat)
    // the field: the player at the start, the hat, the holes, grass elsewhere
    ensures ok ==> hat != (0, 0) && InGrid(hat, rows, cols)
    ensures ok ==> forall r, c :: 0 <= r < rows && 0 <= c < cols ==> field[r, c] == Layout((r, c), hat, holes)
    ensures ok ==> CellsOf(field, Player) == {(0, 0)}
    ensures ok ==> CellsOf(field, Hat) == {hat}
    ensures ok ==> CellsOf(field, Hole) == holes && (0, 0) !in holes && hat !in holes
    ensures ok ==> |holes| == if HoleCount(percentHoles, rows * cols) < 0 then 0 else HoleCount(percentHoles, rows * cols)
  {
    var totalCells := rows * cols;
    var numberOfHoles := HoleCount(percentHoles, totalCells);
    field := new Cell[rows, cols]((r, c) => Grass);
    holes := {};
    if rows * cols == 1 {
      OneCellNeverFinishes(draws, rows, cols, numberOfHoles);
    }
    if numberOfHoles > rows * cols - 2 {
      TooManyHolesNeverFinish(draws, rows, cols, numberOfHoles);
    }

    ok, hat, used := DrawHat(rows, cols, draws);
    if !ok {
      return;
    }
    field[hat.0, hat.1] := Hat;

    var from := used;
    ok, used, holes := PlaceHoles(field, hat, numberOfHoles, draws, used);
    FreeDrawsGrow(draws, from, used, |draws|, hat);
    if !ok {
      return;
    }

    label Placed:
    field[0, 0] := Player;
    forall r, c | 0 <= r < rows && 0 <= c < cols
      ensures field[r, c] == Layout((r, c), hat, holes)
    {
      if (r, c) != (0, 0) {
        assert field[r, c] == old@Placed(field[r, c]);
      }
    }
    LayoutCells(field, hat, holes);
  }
}
