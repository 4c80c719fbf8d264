/** The wrap-around makes every cell alike: moving a whole grid round the
    torus and then evolving it gives the same grid as evolving it first
    and moving it afterwards. There is no edge and no corner. */
module Torus {
  import opened Grid
  import opened Evolution
  import Modular

  /** The grid moved round the torus: cell (i, j) of the result holds
      cell ((i + di) mod height, (j + dj) mod width) of `g`. */
  function Shifted(g: Cells, height: nat, width: nat, di: int, dj: int): (r: Cells)
    requires Shaped(g, height, width)
    ensures Shaped(r, height, width)
  {
    seq(height, i requires 0 <= i < height =>
      seq(width, j requires 0 <= j < width => g[(i + di) % height][(j + dj) % width]))
  }

  /** One cell of the shifted grid. */
  lemma ShiftedAt(g: Cells, height: nat, width: nat, di: int, dj: int, a: int, b: int)
    requires Shaped(g, height, width) && 0 <= a < height && 0 <= b < width
    ensures Shifted(g, height, width, di, dj)[a][b] == g[(a + di) % height][(b + dj) % width]
  {
  }

  /** The neighbour sum of a cell of the shifted grid is the neighbour sum
      of the cell it came from. */
  lemma NearSumShifted(g: Cells, height: nat, width: nat, di: int, dj: int, i: int, j: int)
    requires Shaped(g, height, width)
    requires 0 <= i < height && 0 <= j < width
    ensures 0 <= (i + di) % height < height && 0 <= (j + dj) % width < width
    ensures NearSum(Shifted(g, height, width, di, dj), i, j, height, width)
         == NearSum(g, (i + di) % height, (j + dj) % width, height, width)
  {
    var u, v := (i + di) % height, (j + dj) % width;
    ShiftedNeighbour(g, height, width, di, dj, i, j, -1, -1);
    ShiftedNeighbour(g, height, width, di, dj, i, j, -1, 0);
    ShiftedNeighbour(g, height, width, di, dj, i, j, -1, 1);
    ShiftedNeighbour(g, height, width, di, dj, i, j, 0, -1);
    ShiftedNeighbour(g, height, width, di, dj, i, j, 0, 1);
    ShiftedNeighbour(g, height, width, di, dj, i, j, 1, -1);
    ShiftedNeighbour(g, height, width, di, dj, i, j, 1, 0);
    ShiftedNeighbour(g, height, width, di, dj, i, j, 1, 1);
    NeighboursAgree(Shifted(g, height, width, di, dj), g, height, width, i, j, u, v);
  }

  /** Two cells have the same neighbour sum when their neighbours at each
      of the eight offsets agree. */
  lemma NeighboursAgree(s: Cells, g: Cells, height: nat, width: nat, i: int, j: int, u: int, v: int)
    requires Shaped(s, height, width) && Shaped(g, height, width)
    requires 0 <= i < height && 0 <= j < width && 0 <= u < height && 0 <= v < width
    requires s[(i - 1) % height][(j - 1) % width] == g[(u - 1) % height][(v - 1) % width]
    requires s[(i - 1) % height][(j + 0) % width] == g[(u - 1) % height][(v + 0) % width]
    requires s[(i - 1) % height][(j + 1) % width] == g[(u - 1) % height][(v + 1) % width]
    requires s[(i + 0) % height][(j - 1) % width] == g[(u + 0) % height][(v - 1) % width]
    requires s[(i + 0) % height][(j + 1) % width] == g[(u + 0) % height][(v + 1) % width]
    requires s[(i + 1) % height][(j - 1) % width] == g[(u + 1) % height][(v - 1) % width]
    requires s[(i + 1) % height][(j + 0) % width] == g[(u + 1) % height][(v + 0) % width]
    requires s[(i + 1) % height][(j + 1) % width] == g[(u + 1) % height][(v + 1) % width]
    ensures NearSum(s, i, j, height, width) == NearSum(g, u, v, height, width)
  {
    NearSumWrapped(s, height, width, i, j);
    NearSumWrapped(g, height, width, u, v);
  }

  /** The neighbour sum written with every neighbour at a wrapped offset,
      the middle row and column included. */
  lemma NearSumWrapped(g: Cells, height: nat, width: nat, i: int, j: int)
    requires Shaped(g, height, width)
    requires 0 <= i < height && 0 <= j < width
    ensures NearSum(g, i, j, height, width)
         == g[(i - 1) % height][(j - 1) % width] + g[(i - 1) % height][(j + 0) % width]
          + g[(i - 1) % height][(j + 1) % width] + g[(i + 0) % height][(j - 1) % width]
          + g[(i + 0) % height][(j + 1) % width] + g[(i + 1) % height][(j - 1) % width]
          + g[(i + 1) % height][(j + 0) % width] + g[(i + 1) % height][(j + 1) % width]
  {
    Modular.ModSmall(i, height);
    Modular.ModSmall(j, width);
  }

  /** The neighbour at offset (a, b) of a cell of the shifted grid is the
      neighbour at the same offset of the cell it came from. */
  lemma ShiftedNeighbour(g: Cells, height: nat, width: nat, di: int, dj: int, i: int, j: int, a: int, b: int)
    requires Shaped(g, height, width)
    requires 0 <= i < height && 0 <= j < width
    ensures Shifted(g, height, width, di, dj)[(i + a) % height][(j + b) % width]
         == g[((i + di) % height + a) % height][((j + dj) % width + b) % width]
  {
    Modular.WrapOffset(i, a, di, height);
    Modular.WrapOffset(j, b, dj, width);
    ShiftedAt(g, height, width, di, dj, (i + a) % height, (j + b) % width);
  }

  /** Evolution commutes with moving the grid round the torus. */
  lemma StepShifted(g: Cells, height: nat, width: nat, di: int, dj: int)
    requires Shaped(g, height, width)
    ensures Step(Shifted(g, height, width, di, dj), height, width)
         == Shifted(Step(g, height, width), height, width, di, dj)
  {
    var s := Shifted(g, height, width, di, dj);
    var left := Step(s, height, width);
    var right := Shifted(Step(g, height, width), height, width, di, dj);
    forall i, j | 0 <= i < height && 0 <= j < width
      ensures left[i][j] == right[i][j]
    {
      NearSumShifted(g, height, width, di, dj, i, j);
      assert left[i][j] == NextCell(s, i, j, height, width);
      assert right[i][j] == NextCell(g, (i + di) % height, (j + dj) % width, height, width);
    }
    SameCells(left, right, height, width);
  }
}
