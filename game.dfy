/** The game: the player's moves on a generated field, the `gamePlay` flag
    that ends the session, and the turn loop that reads one token per turn. */
module Game {
  import opened Cells
  import Generator

  datatype Direction = Up | Down | Left | Right

  /** What the turn loop does with one line of input. */
  datatype Action = Move(dir: Direction) | Quit | Ignore

  /** Which of the move's messages is printed: out of the field, into a hole,
      the win, or none (the player moved). */
  datatype MoveOutcome = OutOfBounds | IntoHole | FoundHat | Moved

  /** What one turn did, standing for the message it prints. */
  datatype Turn = Stepped(outcome: MoveOutcome) | Quitted | NotRecognised

  /** A turn after which the game goes on. */
  predicate Continues(t: Turn)
  {
    t == NotRecognised || t == Stepped(Moved)
  }

  /** The letter that names a direction. */
  function Letter(d: Direction): (ch: char)
  {
    match d
    case Up => 'u'
    case Down => 'd'
    case Left => 'l'
    case Right => 'r'
  }

  /** The cell one step from `p` in direction `d`: up and down change the row,
      left and right the column. */
  function Shift(p: Pos, d: Direction): (q: Pos)
    ensures (d == Up || d == Down) ==> q.1 == p.1 && (if d == Up then q.0 < p.0 else q.0 > p.0)
    ensures (d == Left || d == Right) ==> q.0 == p.0 && (if d == Left then q.1 < p.1 else q.1 > p.1)
    ensures (q.0 - p.0) * (q.0 - p.0) + (q.1 - p.1) * (q.1 - p.1) == 1
  {
    match d
    case Up => (p.0 - 1, p.1)
    case Down => (p.0 + 1, p.1)
    case Left => (p.0, p.1 - 1)
    case Right => (p.0, p.1 + 1)
  }

  function LowerChar(ch: char): (lc: char)
  {
    if 'A' <= ch <= 'Z' then (ch as int + 32) as char else ch
  }

  /** Lower-casing of the ASCII letters of `s`: no upper-case letter is
      left, and a character changes only when it is an upper-case letter,
      into its lower-case partner. */
  function Lower(s: string): (t: string)
  {
    seq(|s|, i requires 0 <= i < |s| => LowerChar(s[i]))
  }

  lemma LowerCases(s: string)
    ensures |Lower(s)| == |s|
    ensures forall i :: 0 <= i < |s| ==> !('A' <= Lower(s)[i] <= 'Z')
    ensures forall i :: 0 <= i < |s| && Lower(s)[i] != s[i] ==>
      'A' <= s[i] <= 'Z' && Lower(s)[i] as int == s[i] as int + 32
  {
  }

  /** The turn loop's dispatch on the lower-cased input. */
  function Dispatch(input: string): (a: Action)
  {
    var s := Lower(input);
    if s == "u" then Move(Up)
    else if s == "d" then Move(Down)
    else if s == "l" then Move(Left)
    else if s == "r" then Move(Right)
    else if s == "q" then Quit
    else Ignore
  }

  /** Which inputs the dispatch recognises: exactly the one-letter
      commands, in either case. */
  lemma DispatchCases(input: string)
    ensures Dispatch(input) == Quit <==> input == "q" || input == "Q"
    ensures Dispatch(input).Move? <==> |input| == 1 && input[0] in "udlrUDLR"
    ensures Dispatch(input).Move? ==>
      input == [Letter(Dispatch(input).dir)] || input == [Letter(Dispatch(input).dir) - 'a' + 'A']
  {
    LowerCases(input);
    assert input == "q" || input == "Q" ==> Lower(input) == "q";
  }

  /** What a step onto `to` reports on a `rows x cols` field whose hat and
      holes stand at `hat` and `holes`: the bounds are checked first, then
      the holes, then the hat. */
  function StepOutcome(to: Pos, rows: int, cols: int, hat: Pos, holes: set<Pos>): (outcome: MoveOutcome)
  {
    if !InGrid(to, rows, cols) then OutOfBounds
    else if to in holes then IntoHole
    else if to == hat then FoundHat
    else Moved
  }

  /** One turn taking action `a` with the player at `from`: the turn it
      reports and where it leaves the player. A move goes one step unless the
      step ends the game; a quit and an unrecognised token leave the player
      put. */
  function TurnOn(a: Action, from: Pos, rows: int, cols: int, hat: Pos, holes: set<Pos>): (r: (Turn, Pos))
  {
    match a
    case Move(d) =>
      var outcome := StepOutcome(Shift(from, d), rows, cols, hat, holes);
      (Stepped(outcome), if outcome == Moved then Shift(from, d) else from)
    case Quit => (Quitted, from)
    case Ignore => (NotRecognised, from)
  }

  /** The course of the turn loop: the index after the last token read, the
      turns taken, the player's positions before the first turn and after
      each, and whether the game is still on. */
  datatype Session = Session(consumed: nat, turns: seq<Turn>, path: seq<Pos>, playing: bool)

  /** The turn loop on `tokens` from index `k` on, with the player at `pos`
      and the game on or off, on a `rows x cols` field whose hat and holes
      stand at `hat` and `holes`. A token is read only while the game is on,
      and the loop stops right after the turn that ends it. */
  function Play(tokens: seq<string>, k: nat, pos: Pos, playing: bool, rows: int, cols: int, hat: Pos, holes: set<Pos>): (s: Session)
    requires k <= |tokens|
    decreases |tokens| - k
  {
    if !playing || k == |tokens| then Session(k, [], [pos], playing)
    else
      var (turn, next) := TurnOn(Dispatch(tokens[k]), pos, rows, cols, hat, holes);
      var rest := Play(tokens, k + 1, next, Continues(turn), rows, cols, hat, holes);
      Session(rest.consumed, [turn] + rest.turns, [pos] + rest.path, rest.playing)
  }

  /** A session starts where the player stands, reads tokens only while the
      game is on, reads at least one when the game is on and one is left,
      and ends with the game still on only when every token has been read;
      the game is then still on exactly when the last turn let it go on. */
  lemma {:induction false} PlayStops(tokens: seq<string>, k: nat, pos: Pos, playing: bool, rows: int, cols: int, hat: Pos, holes: set<Pos>, s: Session)
    requires k <= |tokens| && s == Play(tokens, k, pos, playing, rows, cols, hat, holes)
    ensures k <= s.consumed <= |tokens| && |s.turns| == s.consumed - k && |s.path| == |s.turns| + 1
    ensures s.path[0] == pos
    ensures s.consumed > k ==> playing
    ensures playing && k < |tokens| ==> s.consumed > k
    ensures s.playing ==> s.consumed == |tokens|
    ensures s.consumed == k ==> s.playing == playing
    ensures s.consumed > k ==> (s.playing <==> Continues(s.turns[|s.turns| - 1]))
    decreases |tokens| - k
  {
    if playing && k < |tokens| {
      var (turn, next) := TurnOn(Dispatch(tokens[k]), pos, rows, cols, hat, holes);
      var rest := Play(tokens, k + 1, next, Continues(turn), rows, cols, hat, holes);
      PlayStops(tokens, k + 1, next, Continues(turn), rows, cols, hat, holes, rest);
    }
  }

  /** Each turn of a session is the turn its token takes from where the
      previous turn left the player, and every turn but the last lets the
      game go on. */
  lemma {:induction false} PlayTurns(tokens: seq<string>, k: nat, pos: Pos, playing: bool, rows: int, cols: int, hat: Pos, holes: set<Pos>, s: Session)
    requires k <= |tokens| && s == Play(tokens, k, pos, playing, rows, cols, hat, holes)
    ensures |s.turns| == s.consumed - k && |s.path| == |s.turns| + 1 && s.consumed <= |tokens|
    ensures forall i :: 0 <= i < |s.turns| ==>
      (s.turns[i], s.path[i + 1]) == TurnOn(Dispatch(tokens[k + i]), s.path[i], rows, cols, hat, holes)
    ensures forall i :: 0 <= i < |s.turns| - 1 ==> Continues(s.turns[i])
    decreases |tokens| - k
  {
    PlayStops(tokens, k, pos, playing, rows, cols, hat, holes, s);
    if playing && k < |tokens| {
      var r := TurnOn(Dispatch(tokens[k]), pos, rows, cols, hat, holes);
      var rest := Play(tokens, k + 1, r.1, Continues(r.0), rows, cols, hat, holes);
      PlayTurns(tokens, k + 1, r.1, Continues(r.0), rows, cols, hat, holes, rest);
      PlayStops(tokens, k + 1, r.1, Continues(r.0), rows, cols, hat, holes, rest);
      assert s.turns == [r.0] + rest.turns && s.path == [pos] + rest.path;
      forall i | 0 <= i < |s.turns|
        ensures (s.turns[i], s.path[i + 1]) == TurnOn(Dispatch(tokens[k + i]), s.path[i], rows, cols, hat, holes)
      {
        if i > 0 {
          assert s.turns[i] == rest.turns[i - 1] && s.path[i] == rest.path[i - 1] && s.path[i + 1] == rest.path[i];
          assert k + i == (k + 1) + (i - 1);
        } else {
          assert s.turns[0] == r.0 && s.path[0] == pos && s.path[1] == rest.path[0] == r.1;
        }
      }
      forall i | 0 <= i < |s.turns| - 1
        ensures Continues(s.turns[i])
      {
        if i > 0 {
          assert s.turns[i] == rest.turns[i - 1];
        } else {
          assert rest.consumed > k + 1;
        }
      }
    }
  }

  /** `whole` is the session made of `turns`, taken from the positions in
      `done`, followed by the session `rest` played on from there. */
  ghost predicate Resumes(whole: Session, turns: seq<Turn>, done: seq<Pos>, rest: Session)
  {
    whole == Session(rest.consumed, turns + rest.turns, done + rest.path, rest.playing)
  }

  /** Taking the next turn while the game is on moves that turn from the rest
      of the session to the turns taken. */
  lemma PlayOn(tokens: seq<string>, k: nat, pos: Pos, on: bool, turns: seq<Turn>, done: seq<Pos>, whole: Session,
               turn: Turn, next: Pos, playing: bool, rows: int, cols: int, hat: Pos, holes: set<Pos>)
    requires k < |tokens| && on && Resumes(whole, turns, done, Play(tokens, k, pos, on, rows, cols, hat, holes))
    requires (turn, next) == TurnOn(Dispatch(tokens[k]), pos, rows, cols, hat, holes) && playing == Continues(turn)
    ensures Resumes(whole, turns + [turn], done + [pos], Play(tokens, k + 1, next, playing, rows, cols, hat, holes))
  {
    var rest := Play(tokens, k + 1, next, playing, rows, cols, hat, holes);
    ConcatAssoc(turns, [turn], rest.turns);
    ConcatAssoc(done, [pos], rest.path);
  }

  /** Once the game is off or the tokens are all read, the turns taken are
      the whole session. */
  lemma PlayEnd(tokens: seq<string>, k: nat, pos: Pos, playing: bool, turns: seq<Turn>, done: seq<Pos>, whole: Session,
                rows: int, cols: int, hat: Pos, holes: set<Pos>)
    requires k <= |tokens| && (!playing || k == |tokens|)
    requires Resumes(whole, turns, done, Play(tokens, k, pos, playing, rows, cols, hat, holes))
    ensures whole == Session(k, turns, done + [pos], playing)
  {
    assert turns + [] == turns;
  }

  /** The cells a path passes through. */
  function Visited(path: seq<Pos>): (s: set<Pos>)
  {
    if path == [] then {} else Visited(path[..|path| - 1]) + {path[|path| - 1]}
  }

  lemma VisitedSnoc(path: seq<Pos>, p: Pos)
    ensures Visited(path + [p]) == Visited(path) + {p}
  {
    assert (path + [p])[..|path|] == path;
  }

  /** The cells visited are exactly the positions on the path. */
  lemma {:induction false} VisitedIs(path: seq<Pos>)
    ensures forall p :: p in Visited(path) <==> p in path
  {
    if path != [] {
      var init := path[..|path| - 1];
      VisitedIs(init);
      assert path == init + [path[|path| - 1]];
    }
  }

  lemma ConcatAssoc<T>(a: seq<T>, b: seq<T>, c: seq<T>)
    ensures a + (b + c) == (a + b) + c
  {
  }

  /** Each direction letter, in either case, makes a move in that direction. */
  lemma DispatchLetter(d: Direction)
    ensures Dispatch([Letter(d)]) == Move(d)
    ensures Dispatch([Letter(d) - 'a' + 'A']) == Move(d)
  {
    assert Lower([Letter(d)]) == [Letter(d)];
    assert Lower([Letter(d) - 'a' + 'A']) == [Letter(d)];
  }

  class Field {
    const rows: int
    const cols: int
    const percentHoles: int
    var field: array2<Cell>
    var playerPosition: Pos
    var gamePlay: bool
    /** Where the hat stands. */
    ghost var hat: Pos
    /** Where the holes are. */
    ghost var holes: set<Pos>
    /** The cells that show '*': the player's and those it has left. */
    ghost var trail: set<Pos>

    /** The invariant of a field in play: the one hat stands at `hat`, off
        the start, the holes are exactly the cells of `holes`, the '*' cells
        exactly those of `trail`, which hold the start and the player's cell,
        and the player is in bounds. */
    ghost predicate Valid()
      reads this, field
    {
      rows >= 1 && cols >= 1 &&
      field.Length0 == rows && field.Length1 == cols &&
      IsInBounds(playerPosition.0, playerPosition.1) &&
      IsInBounds(hat.0, hat.1) && hat != (0, 0) &&
      (0, 0) in trail && playerPosition in trail &&
      (forall p :: p in holes ==> InGrid(p, rows, cols)) &&
      (forall p :: p in trail ==> InGrid(p, rows, cols)) &&
      forall r, c {:trigger field[r, c]} :: 0 <= r < rows && 0 <= c < cols ==>
        (field[r, c] == Hat <==> (r, c) == hat) &&
        (field[r, c] == Hole <==> (r, c) in holes) &&
        (field[r, c] == Star <==> (r, c) in trail)
    }

    /** The effect of one move in direction `d` that reports `outcome`. */
    twostate predicate MoveEffect(d: Direction, outcome: MoveOutcome)
      requires old(Valid())
      reads this, field
    {
      var from := old(playerPosition);
      var to := Shift(from, d);
      field == old(field) && hat == old(hat) &&
      outcome == (if !IsInBounds(to.0, to.1) then OutOfBounds
                  else if old(field[to.0, to.1]) == Hole then IntoHole
                  else if old(field[to.0, to.1]) == Hat then FoundHat
                  else Moved) &&
      (outcome != Moved ==>
        !gamePlay && playerPosition == from &&
        forall r, c :: 0 <= r < rows && 0 <= c < cols ==> field[r, c] == old(field[r, c])) &&
      (outcome == Moved ==>
        gamePlay == old(gamePlay) && playerPosition == to &&
        field[from.0, from.1] == Path && field[to.0, to.1] == Player &&
        forall r, c :: 0 <= r < rows && 0 <= c < cols && (r, c) != from && (r, c) != to ==>
          field[r, c] == old(field[r, c]))
    }

    constructor (rows: int, cols: int, percentHoles: int)
      requires rows >= 1 && cols >= 1
      ensures this.rows == rows && this.cols == cols && this.percentHoles == percentHoles
      ensures playerPosition == (0, 0) && !gamePlay
      ensures fresh(field) && field.Length0 == 0 && field.Length1 == 0
    {
      this.rows := rows;
      this.cols := cols;
      this.percentHoles := percentHoles;
      field := new Cell[0, 0];
      playerPosition := (0, 0);
      gamePlay := false;
    }

    /** Fills `field` with a generated field. `ok` is false when the
        generator's run has not finished with the draws supplied. */
    method GenerateField(draws: seq<Pos>) returns (ok: bool, ghost drawn: nat)
      requires rows >= 1 && cols >= 1 && playerPosition == (0, 0)
      requires forall i :: 0 <= i < |draws| ==> InGrid(draws[i], rows, cols)
      modifies this
      ensures playerPosition == old(playerPosition) && gamePlay == old(gamePlay)
      ensures !ok ==> field == old(field)
      ensures ok <==> Generator.Finishes(draws, Generator.HoleCount(percentHoles, rows * cols))
      ensures rows * cols == 1 ==> !ok
      ensures Generator.HoleCount(percentHoles, rows * cols) > rows * cols - 2 ==> !ok
      ensures ok ==> fresh(field) && Valid() && hat == draws[Generator.FirstOffStart(draws)] && trail == {(0, 0)}
      ensures ok ==> forall r, c :: 0 <= r < rows && 0 <= c < cols ==> field[r, c] == Generator.Layout((r, c), hat, holes)
      ensures ok ==> CellsOf(field, Player) == {(0, 0)} && CellsOf(field, Hat) == {hat} && CellsOf(field, Hole) == holes
      // the holes are the free cells drawn after the hat, up to the last draw used
      ensures ok ==> (Generator.FirstOffStart(draws) < drawn <= |draws| &&
        holes == Generator.FreeDraws(draws, Generator.FirstOffStart(draws) + 1, drawn, hat))
      ensures ok ==> (0, 0) !in holes && holes <= Generator.FreeDraws(draws, Generator.FirstOffStart(draws) + 1, |draws|, hat)
      ensures ok ==> |holes| == var n := Generator.HoleCount(percentHoles, rows * cols); if n < 0 then 0 else n
    {
      var a, h, used;
      ghost var hs;
      ok, a, h, used, hs := Generator.GenerateField(rows, cols, percentHoles, draws);
      drawn := used;
      if ok {
        field, hat, holes, trail := a, h, hs, {(0, 0)};
        forall r, c | 0 <= r < rows && 0 <= c < cols
          ensures (field[r, c] == Hat <==> (r, c) == hat) && (field[r, c] == Hole <==> (r, c) in holes)
          ensures field[r, c] == Star <==> (r, c) in trail
        {
          assert field[r, c] == Generator.Layout((r, c), hat, holes);
        }
      }
    }

    /** Whether `(row, col)` is a cell of the field. */
    function IsInBounds(row: int, col: int): (b: bool)
      ensures b <==> InGrid((row, col), rows, cols)
      ensures b <==> (row, col) in AllCells(rows, cols)
    {
      row >= 0 && row < rows && col >= 0 && col < cols
    }

    /** A valid field has exactly one hat, its holes are the cells of
        `holes`, and the start cell is neither a hat nor a hole. */
    lemma OneHat()
      requires Valid()
      ensures CellsOf(field, Hat) == {hat} && CellsOf(field, Hole) == holes
      ensures (0, 0) !in CellsOf(field, Hole) && (0, 0) !in CellsOf(field, Hat)
    {
      CellsOfIs(field, Hat, {hat});
      CellsOfIs(field, Hole, holes);
    }

    /** Ends the session: no further moves are made. */
    method EndGame()
      modifies this
      ensures !gamePlay
      ensures field == old(field) && playerPosition == old(playerPosition)
      ensures hat == old(hat) && holes == old(holes) && trail == old(trail)
    {
      gamePlay := false;
    }

    /** Moves the player one step in `direction`, or ends the game when the
        step leaves the field, falls into a hole or finds the hat. */
    method UpdatePlayer(direction: Direction) returns (outcome: MoveOutcome)
      requires Valid()
      modifies this, field
      ensures Valid() && field == old(field) && hat == old(hat) && holes == old(holes)
      ensures outcome == StepOutcome(Shift(old(playerPosition), direction), rows, cols, hat, holes)
      ensures if outcome == Moved then playerPosition == Shift(old(playerPosition), direction) && gamePlay == old(gamePlay)
              else playerPosition == old(playerPosition) && !gamePlay
      ensures trail == old(trail) + {playerPosition}
    {
      var (currentRow, currentCol) := playerPosition;
      var (newRow, newCol) := Shift(playerPosition, direction);

      if !IsInBounds(newRow, newCol) {
        EndGame();
        return OutOfBounds;
      }

      var newPosition := field[newRow, newCol];
      if newPosition == Hole {
        EndGame();
        return IntoHole;
      }
      if newPosition == Hat {
        EndGame();
        return FoundHat;
      }

      assert (newRow, newCol) != hat && (newRow, newCol) !in holes;
      field[currentRow, currentCol] := Path;
      field[newRow, newCol] := Player;
      playerPosition := (newRow, newCol);
      trail := trail + {playerPosition};
      forall r, c | 0 <= r < rows && 0 <= c < cols
        ensures (field[r, c] == Hat <==> (r, c) == hat) && (field[r, c] == Hole <==> (r, c) in holes)
        ensures field[r, c] == Star <==> (r, c) in trail
      {
        if (r, c) == (currentRow, currentCol) {
          assert old(field[r, c]) == Star && field[r, c] == Star && (r, c) in trail;
        } else if (r, c) == (newRow, newCol) {
          assert field[r, c] == Star && (r, c) in trail;
        } else {
          assert field[r, c] == old(field[r, c]);
          assert (r, c) in trail <==> (r, c) in old(trail);
        }
      }
      outcome := Moved;
    }

    /** A step in direction `d` reporting `outcome`, between two valid
        states, has the effect on the cells that `MoveEffect` describes. */
    twostate lemma StepCells(d: Direction, outcome: MoveOutcome)
      requires old(Valid()) && Valid()
      requires field == old(field) && hat == old(hat) && holes == old(holes)
      requires outcome == StepOutcome(Shift(old(playerPosition), d), rows, cols, hat, holes)
      requires if outcome == Moved then playerPosition == Shift(old(playerPosition), d) && gamePlay == old(gamePlay)
               else playerPosition == old(playerPosition) && !gamePlay
      requires trail == old(trail) + {playerPosition}
      ensures MoveEffect(d, outcome)
    {
      var from, to := old(playerPosition), Shift(old(playerPosition), d);
      if IsInBounds(to.0, to.1) {
        assert old(field[to.0, to.1]) == Hole <==> to in holes;
        assert old(field[to.0, to.1]) == Hat <==> to == hat;
      }
      forall r, c | 0 <= r < rows && 0 <= c < cols && (outcome != Moved || ((r, c) != from && (r, c) != to))
        ensures field[r, c] == old(field[r, c])
      {
        assert (r, c) in trail <==> (r, c) in old(trail);
      }
      if outcome == Moved {
        assert from in trail && to in trail;
        assert field[from.0, from.1] == Star && field[to.0, to.1] == Star;
      }
    }

    /** One turn of the loop: dispatch on one line of input. */
    method HandleInput(input: string) returns (turn: Turn)
      requires Valid()
      modifies this, field
      ensures Valid() && field == old(field) && hat == old(hat) && holes == old(holes)
      ensures (turn, playerPosition) == TurnOn(Dispatch(input), old(playerPosition), rows, cols, hat, holes)
      ensures if Continues(turn) then gamePlay == old(gamePlay) else !gamePlay
      // the cell the player ends on joins the '*' cells
      ensures trail == old(trail) + {playerPosition}
    {
      match Dispatch(input) {
        case Move(d) =>
          var outcome := UpdatePlayer(d);
          turn := Stepped(outcome);
        case Quit =>
          EndGame();
          turn := Quitted;
        case Ignore =>
          turn := NotRecognised;
      }
    }

    /** Between two valid states of the same array with the same hat and
        holes, whose '*' cells grew by `s`, the cells of `s` show '*' and
        every other cell is as it was. */
    twostate lemma Retraced(new s: set<Pos>)
      requires old(Valid()) && Valid()
      requires field == old(field) && hat == old(hat) && holes == old(holes) && trail == old(trail) + s
      ensures forall r, c :: 0 <= r < rows && 0 <= c < cols ==>
        field[r, c] == if (r, c) in s then Star else old(field[r, c])
    {
      forall r, c | 0 <= r < rows && 0 <= c < cols
        ensures field[r, c] == if (r, c) in s then Star else old(field[r, c])
      {
        if (r, c) !in s {
          assert field[r, c] == Star <==> old(field[r, c]) == Star;
        }
      }
    }

    /** The turn loop, reading `tokens` in order while the game is on.
        `consumed` is the number of tokens read, `turns` what each did and
        `path` where the player stood before the first turn and after each:
        together they are the session `Play` gives for this field. */
    method UpdateGame(tokens: seq<string>) returns (consumed: nat, ghost turns: seq<Turn>, ghost path: seq<Pos>)
      requires Valid()
      modifies this, field
      ensures Valid() && field == old(field) && hat == old(hat) && holes == old(holes)
      // the session is the one the turn loop plays on this field
      ensures Session(consumed, turns, path, gamePlay) ==
        Play(tokens, 0, old(playerPosition), old(gamePlay), rows, cols, hat, holes)
      ensures path[|path| - 1] == playerPosition
      // the cells walked show '*'; every other cell is as it was
      ensures trail == old(trail) + Visited(path)
    {
      ghost var hat0, holes0 := hat, holes;
      ghost var whole := Play(tokens, 0, playerPosition, gamePlay, rows, cols, hat0, holes0);
      // `done` holds the player's position before each turn taken so far
      ghost var done: seq<Pos> := [];
      consumed := 0;
      turns := [];
      VisitedSnoc([], playerPosition);
      while gamePlay && consumed < |tokens|
        invariant Valid() && field == old(field) && hat == old(hat) && holes == old(holes)
        invariant consumed <= |tokens|
        // the turns so far, then the rest of the session from here
        invariant Resumes(whole, turns, done, Play(tokens, consumed, playerPosition, gamePlay, rows, cols, hat0, holes0))
        invariant trail == old(trail) + Visited(done + [playerPosition])
        decreases |tokens| - consumed
      {
        ghost var here, on := playerPosition, gamePlay;
        var turn := HandleInput(tokens[consumed]);
        PlayOn(tokens, consumed, here, on, turns, done, whole, turn, playerPosition, gamePlay, rows, cols, hat0, holes0);
        VisitedSnoc(done + [here], playerPosition);
        turns, done := turns + [turn], done + [here];
        consumed := consumed + 1;
      }
      PlayEnd(tokens, consumed, playerPosition, gamePlay, turns, done, whole, rows, cols, hat0, holes0);
      path := done + [playerPosition];
    }

    /** Starts the game: generates the field and runs the turn loop on it.
        `ok` is false when generation has not finished with the draws
        supplied; otherwise `turns` and `path` are the session played. */
    method StartGame(draws: seq<Pos>, tokens: seq<string>)
      returns (ok: bool, consumed: nat, ghost drawn: nat, ghost turns: seq<Turn>, ghost path: seq<Pos>)
      requires rows >= 1 && cols >= 1 && playerPosition == (0, 0)
      requires forall i :: 0 <= i < |draws| ==> InGrid(draws[i], rows, cols)
      modifies this
      ensures ok <==> Generator.Finishes(draws, Generator.HoleCount(percentHoles, rows * cols))
      ensures !ok ==> gamePlay && consumed == 0
      // play keeps the generated hat and holes
      ensures ok ==> fresh(field) && Valid() && hat == draws[Generator.FirstOffStart(draws)]
      ensures ok ==> CellsOf(field, Hat) == {hat} && CellsOf(field, Hole) == holes
      ensures ok ==> |holes| == var n := Generator.HoleCount(percentHoles, rows * cols); if n < 0 then 0 else n
      ensures ok ==> (Generator.FirstOffStart(draws) < drawn <= |draws| &&
        holes == Generator.FreeDraws(draws, Generator.FirstOffStart(draws) + 1, drawn, hat))
      // the session is the one the turn loop plays from the start cell on the generated field
      ensures ok ==> (Session(consumed, turns, path, gamePlay) ==
        Play(tokens, 0, (0, 0), true, rows, cols, hat, holes))
      ensures ok ==> path[|path| - 1] == playerPosition
      // the cells walked show '*'; every other cell is as the generator laid it out
      ensures ok ==> trail == Visited(path)
      ensures ok ==> forall r, c :: 0 <= r < rows && 0 <= c < cols ==>
        field[r, c] == if (r, c) in Visited(path) then Star else Generator.Layout((r, c), hat, holes)
    {
      gamePlay := true;
      ok, drawn := GenerateField(draws);
      consumed, turns, path := 0, [], [playerPosition];
      if ok {
        label Generated:
        consumed, turns, path := UpdateGame(tokens);
        VisitedIs(path);
        Retraced@Generated(Visited(path));
        OneHat();
        forall r, c | 0 <= r < rows && 0 <= c < cols
          ensures field[r, c] == if (r, c) in Visited(path) then Star else Generator.Layout((r, c), hat, holes)
        {
          assert old@Generated(field[r, c]) == Generator.Layout((r, c), hat, holes);
        }
      }
    }
  }
}
