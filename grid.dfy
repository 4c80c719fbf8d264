/** The cell matrix `lives` of the Game of Life: `height` rows of `width`
    integer cells, 1 for alive and 0 for dead, and the in-place toggle that
    a mouse click in the game region applies to it. */
module Grid {
  import Modular

  /** The value of a grid: a sequence of rows (row index first, as in
      `lives[i, j]`). */
  type Cells = seq<seq<int>>

  /** `g` has `height` rows of `width` cells each. */
  predicate Shaped(g: Cells, height: nat, width: nat)
  {
    |g| == height && forall i :: 0 <= i < height ==> |g[i]| == width
  }

  /** Every cell is 0 (dead) or 1 (alive). */
  predicate Binary(g: Cells)
  {
    forall i, j :: 0 <= i < |g| && 0 <= j < |g[i]| ==> g[i][j] == 0 || g[i][j] == 1
  }

  /** The current value of a two-dimensional array of cells. */
  function Snapshot(a: array2<int>): (g: Cells)
    reads a
    ensures Shaped(g, a.Length0, a.Length1)
    ensures forall i, j :: 0 <= i < a.Length0 && 0 <= j < a.Length1 ==> g[i][j] == a[i, j]
  {
    seq(a.Length0, i requires 0 <= i < a.Length0 reads a =>
      seq(a.Length1, j requires 0 <= j < a.Length1 reads a => a[i, j]))
  }

  /** Two grids of the same shape that agree on every cell are equal. */
  lemma SameCells(g: Cells, g': Cells, height: nat, width: nat)
    requires Shaped(g, height, width) && Shaped(g', height, width)
    requires forall i, j :: 0 <= i < height && 0 <= j < width ==> g[i][j] == g'[i][j]
    ensures g == g'
  {
    forall i | 0 <= i < height
      ensures g[i] == g'[i]
    {
      assert forall j :: 0 <= j < width ==> g[i][j] == g'[i][j];
    }
  }

  /** The click at pixel (x, y) lies in the hit square of cell (i, j):
      the square's corner is at (i, j) times the pitch
      `rectLength + rectInterval` and it spans `rectLength` further, both
      edges included. It is one pixel wider than the square drawn for the
      cell, which ends at `rectLength - 1`. */
  predicate Hit(i: int, j: int, x: int, y: int, rectLength: int, rectInterval: int)
  {
    var sx := i * (rectLength + rectInterval);
    var sy := j * (rectLength + rectInterval);
    sx <= x <= sx + rectLength && sy <= y <= sy + rectLength
  }

  /** A toggled cell: 0 becomes 1, 1 becomes 0, any other value stays. */
  function Flip(v: int): (r: int)
  {
    if v == 0 then 1 else if v == 1 then 0 else v
  }

  /** The grid after a click at (x, y): every cell whose square holds the
      point is flipped, every other cell keeps its value. */
  function Toggled(g: Cells, x: int, y: int, rectLength: int, rectInterval: int): (r: Cells)
    ensures |r| == |g| && forall i :: 0 <= i < |g| ==> |r[i]| == |g[i]|
    ensures forall i, j :: 0 <= i < |g| && 0 <= j < |g[i]| ==>
              r[i][j] == if Hit(i, j, x, y, rectLength, rectInterval) then Flip(g[i][j]) else g[i][j]
    ensures Binary(g) ==> Binary(r)
  {
    seq(|g|, i requires 0 <= i < |g| =>
      seq(|g[i]|, j requires 0 <= j < |g[i]| =>
        if Hit(i, j, x, y, rectLength, rectInterval) then Flip(g[i][j]) else g[i][j]))
  }

  /** Clicking the same point twice restores the grid. */
  lemma ToggleTwice(g: Cells, x: int, y: int, rectLength: int, rectInterval: int)
    ensures Toggled(Toggled(g, x, y, rectLength, rectInterval), x, y, rectLength, rectInterval) == g
  {
    var r := Toggled(Toggled(g, x, y, rectLength, rectInterval), x, y, rectLength, rectInterval);
    forall i | 0 <= i < |g|
      ensures r[i] == g[i]
    {
      assert |r[i]| == |g[i]|;
      forall j | 0 <= j < |g[i]|
        ensures r[i][j] == g[i][j]
      {
      }
    }
  }

  /** When the squares are separated by a gap (`rectInterval > 0`), a click
      lies on at most one square, so it toggles at most one cell. */
  lemma HitUnique(i: int, j: int, i': int, j': int, x: int, y: int, rectLength: int, rectInterval: int)
    requires rectLength >= 0 && rectInterval > 0
    requires Hit(i, j, x, y, rectLength, rectInterval)
    requires Hit(i', j', x, y, rectLength, rectInterval)
    ensures i == i' && j == j'
  {
    var pitch := rectLength + rectInterval;
    SquaresApart(i, i', x, pitch, rectLength);
    SquaresApart(j, j', y, pitch, rectLength);
  }

  /** With the gap, one click changes at most one cell of the grid. */
  lemma ClickChangesAtMostOneCell(g: Cells, x: int, y: int, rectLength: int, rectInterval: int,
                                  i: int, j: int, i': int, j': int)
    requires rectLength >= 0 && rectInterval > 0
    requires 0 <= i < |g| && 0 <= j < |g[i]| && 0 <= i' < |g| && 0 <= j' < |g[i']|
    requires Toggled(g, x, y, rectLength, rectInterval)[i][j] != g[i][j]
    requires Toggled(g, x, y, rectLength, rectInterval)[i'][j'] != g[i'][j']
    ensures i == i' && j == j'
  {
    HitUnique(i, j, i', j', x, y, rectLength, rectInterval);
  }

  /** Along one axis: the intervals [k * pitch, k * pitch + side] for
      distinct k are disjoint when side < pitch. */
  lemma SquaresApart(k: int, k': int, z: int, pitch: int, side: int)
    requires 0 <= side < pitch
    requires k * pitch <= z <= k * pitch + side
    requires k' * pitch <= z <= k' * pitch + side
    ensures k == k'
  {
    if k < k' {
      Modular.QuotientOrder(k, side, k', 0, pitch);
    } else if k' < k {
      Modular.QuotientOrder(k', side, k, 0, pitch);
    }
  }

  /** The click handler's toggle loop over the game region: every cell
      whose square holds (x, y) is flipped in place. */
  method ToggleAt(lives: array2<int>, x: int, y: int, rectLength: int, rectInterval: int)
    modifies lives
    ensures Snapshot(lives) == Toggled(old(Snapshot(lives)), x, y, rectLength, rectInterval)
  {
    var h, w := lives.Length0, lives.Length1;
    for i := 0 to h
      invariant forall r, c :: 0 <= r < h && 0 <= c < w ==>
                  lives[r, c] == if r < i && Hit(r, c, x, y, rectLength, rectInterval)
                                 then Flip(old(lives[r, c])) else old(lives[r, c])
    {
      for j := 0 to w
        invariant forall r, c :: 0 <= r < h && 0 <= c < w ==>
                    lives[r, c] == if (r < i || (r == i && c < j)) && Hit(r, c, x, y, rectLength, rectInterval)
                                   then Flip(old(lives[r, c])) else old(lives[r, c])
      {
        var sx := i * (rectLength + rectInterval);
        var sy := j * (rectLength + rectInterval);
        if sx <= x <= sx + rectLength && sy <= y <= sy + rectLength {
          if lives[i, j] == 0 {
            lives[i, j] := 1;
          } else if lives[i, j] == 1 {
            lives[i, j] := 0;
          }
        }
      }
    }
    SameCells(Snapshot(lives), Toggled(old(Snapshot(lives)), x, y, rectLength, rectInterval), h, w);
  }
}
