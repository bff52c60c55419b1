/** Short sessions whose course follows from the contracts alone. */
module Scenarios {
  import opened Cells
  import opened Game
  import Generator

  /** A 3 x 3 field without holes and the hat at (2, 2): right, right, down,
      down reaches the hat on the fourth move. */
  method WalkToHat()
  {
    var f := new Field(3, 3, 0);
    var draws := [(2, 2)];
    assert Generator.HoleCount(0, 9) == 0 && Generator.FirstOffStart(draws) == 0;
    var ok, _ := f.GenerateField(draws);
    assert ok && f.hat == (2, 2) && f.holes == {};
    var o1 := f.UpdatePlayer(Right);
    assert o1 == Moved && f.playerPosition == (0, 1);
    var o2 := f.UpdatePlayer(Right);
    assert o2 == Moved && f.playerPosition == (0, 2);
    var o3 := f.UpdatePlayer(Down);
    assert o3 == Moved && f.playerPosition == (1, 2);
    var o4 := f.UpdatePlayer(Down);
    assert o4 == FoundHat && !f.gamePlay;
  }

  /** A 2 x 2 field with its one hole at (0, 1): moving right falls in. */
  method StepIntoHole()
  {
    var f := new Field(2, 2, 25);
    var draws := [(1, 1), (0, 1)];
    assert Generator.HoleCount(25, 4) == 1 && Generator.FirstOffStart(draws) == 0;
    assert draws[1] in Generator.FreeDraws(draws, 1, 2, (1, 1));
    assert Generator.FreeDraws(draws, 1, 2, (1, 1)) == {(0, 1)};
    var ok, _ := f.GenerateField(draws);
    assert ok && f.holes == {(0, 1)};
    var o := f.UpdatePlayer(Right);
    assert o == IntoHole && !f.gamePlay && f.playerPosition == (0, 0);
  }

  /** The free cells among the draws `(1, 1), (0, 1), (1, 0)` after the hat
      at (1, 1), up to each index. */
  lemma ThreeDraws()
    ensures Generator.FreeDraws([(1, 1), (0, 1), (1, 0)], 1, 1, (1, 1)) == {}
    ensures Generator.FreeDraws([(1, 1), (0, 1), (1, 0)], 1, 2, (1, 1)) == {(0, 1)}
    ensures Generator.FreeDraws([(1, 1), (0, 1), (1, 0)], 1, 3, (1, 1)) == {(0, 1), (1, 0)}
  {
    var draws := [(1, 1), (0, 1), (1, 0)];
    assert Generator.FreeDraws(draws, 1, 1, (1, 1)) == {};
    Generator.FreeDrawsStep(draws, 1, 1, (1, 1));
    Generator.FreeDrawsStep(draws, 1, 2, (1, 1));
  }

  /** A 2 x 2 field asking for one hole, drawn as (0, 1) and then (1, 0):
      the hole loop stops at its first free draw, so only (0, 1) is a hole. */
  method FirstFreeDrawIsTheHole()
  {
    var f := new Field(2, 2, 25);
    var draws := [(1, 1), (0, 1), (1, 0)];
    assert Generator.HoleCount(25, 4) == 1 && Generator.FirstOffStart(draws) == 0;
    ThreeDraws();
    var ok, drawn := f.GenerateField(draws);
    assert ok && drawn == 2;
    assert f.holes == {(0, 1)};
  }

  /** Moving up from the start leaves a 2 x 2 field. */
  method LeaveField()
  {
    var f := new Field(2, 2, 0);
    var draws := [(0, 0), (1, 0)];
    assert Generator.HoleCount(0, 4) == 0 && Generator.FirstOffStart(draws) == 1;
    var ok, _ := f.GenerateField(draws);
    assert ok;
    var o := f.UpdatePlayer(Up);
    assert o == OutOfBounds && !f.gamePlay && f.playerPosition == (0, 0);
  }
}
