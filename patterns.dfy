/** Known configurations under the rule: the block (a still life) and the
    blinker (an oscillator of period two). Grids are written row by row,
    `g[i][j]` standing for `lives[i, j]`; on screen i runs left to right,
    so a line of fixed i is drawn vertically. */
module Patterns {
  import opened Grid
  import opened Evolution
  import opened Torus

  /** A 5 by 5 grid whose live cells are (2, 1), (2, 2) and (2, 3). */
  const BlinkerVertical: Cells :=
    [[0, 0, 0, 0, 0],
     [0, 0, 0, 0, 0],
     [0, 1, 1, 1, 0],
     [0, 0, 0, 0, 0],
     [0, 0, 0, 0, 0]]

  /** A 5 by 5 grid whose live cells are (1, 2), (2, 2) and (3, 2). */
  const BlinkerHorizontal: Cells :=
    [[0, 0, 0, 0, 0],
     [0, 0, 1, 0, 0],
     [0, 0, 1, 0, 0],
     [0, 0, 1, 0, 0],
     [0, 0, 0, 0, 0]]

  /** A 4 by 4 grid holding a 2 by 2 block of live cells. */
  const Block: Cells :=
    [[0, 0, 0, 0],
     [0, 1, 1, 0],
     [0, 1, 1, 0],
     [0, 0, 0, 0]]

  /** The vertical blinker turns horizontal. */
  lemma BlinkerTurns()
    ensures Step(BlinkerVertical, 5, 5) == BlinkerHorizontal
  {
    var next := Step(BlinkerVertical, 5, 5);
    forall i, j | 0 <= i < 5 && 0 <= j < 5
      ensures next[i][j] == BlinkerHorizontal[i][j]
    {
      assert i == 0 || i == 1 || i == 2 || i == 3 || i == 4;
      assert j == 0 || j == 1 || j == 2 || j == 3 || j == 4;
    }
    SameCells(next, BlinkerHorizontal, 5, 5);
  }

  /** The horizontal blinker turns back to vertical. */
  lemma BlinkerTurnsBack()
    ensures Step(BlinkerHorizontal, 5, 5) == BlinkerVertical
  {
    var next := Step(BlinkerHorizontal, 5, 5);
    forall i, j | 0 <= i < 5 && 0 <= j < 5
      ensures next[i][j] == BlinkerVertical[i][j]
    {
      assert i == 0 || i == 1 || i == 2 || i == 3 || i == 4;
      assert j == 0 || j == 1 || j == 2 || j == 3 || j == 4;
    }
    SameCells(next, BlinkerVertical, 5, 5);
  }

  /** The blinker has period two, wherever it sits on the torus. */
  lemma BlinkerOscillates(di: int, dj: int)
    ensures Step(Shifted(BlinkerVertical, 5, 5, di, dj), 5, 5) == Shifted(BlinkerHorizontal, 5, 5, di, dj)
    ensures Step(Step(Shifted(BlinkerVertical, 5, 5, di, dj), 5, 5), 5, 5) == Shifted(BlinkerVertical, 5, 5, di, dj)
  {
    BlinkerTurns();
    BlinkerTurnsBack();
    StepShifted(BlinkerVertical, 5, 5, di, dj);
    StepShifted(BlinkerHorizontal, 5, 5, di, dj);
  }

  /** The block is a still life: one step leaves it unchanged. */
  lemma BlockStill()
    ensures Step(Block, 4, 4) == Block
  {
    var next := Step(Block, 4, 4);
    forall i, j | 0 <= i < 4 && 0 <= j < 4
      ensures next[i][j] == Block[i][j]
    {
      assert i == 0 || i == 1 || i == 2 || i == 3;
      assert j == 0 || j == 1 || j == 2 || j == 3;
    }
    SameCells(next, Block, 4, 4);
  }

  /** On a 3 by 3 grid whose only live cell is (0, 0), the wrap-around in
      both directions makes (0, 0) a neighbour of the far corner (2, 2). */
  lemma CornersTouch()
    ensures NearSum([[1, 0, 0], [0, 0, 0], [0, 0, 0]], 2, 2, 3, 3) == 1
  {
  }
}
