/** The evolution engine: the toroidal neighbour sum and one generation of
    the B3/S23 rule, as a specification on grid values and as the
    copy-then-overwrite loop over a two-dimensional array. */
module Evolution {
  import opened Grid
  import Modular

  /** The sum of the eight cells around (i, j). Every neighbour coordinate
      is taken modulo `height` or `width`, so the grid wraps round as a
      torus; Dafny's `%` agrees with Python's for a positive divisor, and
      the requires clause is exactly what makes every index in bounds. */
  function NearSum(lives: Cells, i: int, j: int, height: nat, width: nat): (n: int)
    requires Shaped(lives, height, width)
    requires 0 <= i < height && 0 <= j < width
    ensures Binary(lives) ==> 0 <= n <= 8
  {
    lives[(i - 1) % height][(j - 1) % width] + lives[(i - 1) % height][j]
    + lives[(i - 1) % height][(j + 1) % width] + lives[i][(j - 1) % width]
    + lives[i][(j + 1) % width] + lives[(i + 1) % height][(j - 1) % width]
    + lives[(i + 1) % height][j] + lives[(i + 1) % height][(j + 1) % width]
  }

  /** The next value of cell (i, j). Only the value 1 counts as alive;
      any other value takes the dead branch. */
  function NextCell(lives: Cells, i: int, j: int, height: nat, width: nat): int
    requires Shaped(lives, height, width)
    requires 0 <= i < height && 0 <= j < width
  {
    if lives[i][j] == 1 then
      if NearSum(lives, i, j, height, width) == 2 || NearSum(lives, i, j, height, width) == 3 then 1 else 0
    else
      if NearSum(lives, i, j, height, width) == 3 then 1 else 0
  }

  /** The next generation of a grid. */
  function Step(lives: Cells, height: nat, width: nat): (r: Cells)
    requires Shaped(lives, height, width)
    ensures Shaped(r, height, width)
    ensures Binary(r)
    // survival: a live cell stays alive iff it has two or three live neighbours
    ensures forall i, j {:trigger r[i][j]} :: 0 <= i < height && 0 <= j < width && lives[i][j] == 1 ==>
              (r[i][j] == 1 <==> NearSum(lives, i, j, height, width) in {2, 3})
    // birth: any other cell comes alive iff it has exactly three
    ensures forall i, j {:trigger r[i][j]} :: 0 <= i < height && 0 <= j < width && lives[i][j] != 1 ==>
              (r[i][j] == 1 <==> NearSum(lives, i, j, height, width) == 3)
  {
    seq(height, i requires 0 <= i < height =>
      seq(width, j requires 0 <= j < width => NextCell(lives, i, j, height, width)))
  }

  /** One generation: `newLives` starts as a copy of `lives`, then every
      cell of it is overwritten from the neighbours in `lives`, which is
      only read. */
  method OneIteration(lives: array2<int>) returns (newLives: array2<int>)
    ensures fresh(newLives)
    ensures newLives.Length0 == lives.Length0 && newLives.Length1 == lives.Length1
    ensures Snapshot(newLives) == Step(Snapshot(lives), lives.Length0, lives.Length1)
    ensures unchanged(lives)
  {
    var height, width := lives.Length0, lives.Length1;
    // `lives` is only read, so its value is taken once; `newLives` starts
    // as a copy of it
    var grid := Snapshot(lives);
    newLives := new int[height, width]((i, j) requires 0 <= i < height && 0 <= j < width => grid[i][j]);
    ghost var next := Step(grid, height, width);
    for i := 0 to height
      invariant forall r, c {:trigger newLives[r, c]} :: 0 <= r < height && 0 <= c < width ==>
                  newLives[r, c] == if r < i then next[r][c] else lives[r, c]
    {
      for j := 0 to width
        invariant forall r, c {:trigger newLives[r, c]} :: 0 <= r < height && 0 <= c < width ==>
                    newLives[r, c] == if r < i || (r == i && c < j) then next[r][c] else lives[r, c]
      {
        if lives[i, j] == 1 {
          if NearSum(grid, i, j, height, width) == 2 || NearSum(grid, i, j, height, width) == 3 {
            newLives[i, j] := 1;
          } else {
            newLives[i, j] := 0;
          }
        } else {
          if NearSum(grid, i, j, height, width) == 3 {
            newLives[i, j] := 1;
          } else {
            newLives[i, j] := 0;
          }
        }
      }
    }
    SameCells(Snapshot(newLives), next, height, width);
  }

  /** The eight neighbour offsets (row, column) of a cell. */
  const Neighbourhood: seq<(int, int)> :=
    [(-1, -1), (-1, 0), (-1, 1), (0, -1), (0, 1), (1, -1), (1, 0), (1, 1)]

  /** 1 if the cell at offset (di, dj) from (i, j), wrapped round the
      torus, is alive, and 0 otherwise. */
  function AliveAt(lives: Cells, i: int, j: int, height: nat, width: nat, di: int, dj: int): (k: nat)
    requires Shaped(lives, height, width)
    requires 0 <= i < height && 0 <= j < width
    ensures k <= 1
  {
    if lives[(i + di) % height][(j + dj) % width] == 1 then 1 else 0
  }

  /** How many of the cells at the given offsets from (i, j), wrapped
      round the torus, are alive. */
  function AliveAmong(lives: Cells, i: int, j: int, height: nat, width: nat, offsets: seq<(int, int)>): (k: nat)
    requires Shaped(lives, height, width)
    requires 0 <= i < height && 0 <= j < width
    ensures k <= |offsets|
    decreases |offsets|
  {
    if offsets == [] then 0
    else AliveAt(lives, i, j, height, width, offsets[0].0, offsets[0].1)
         + AliveAmong(lives, i, j, height, width, offsets[1..])
  }

  /** The eight live-neighbour indicators of (i, j), added up. */
  function AliveSum(lives: Cells, i: int, j: int, height: nat, width: nat): int
    requires Shaped(lives, height, width)
    requires 0 <= i < height && 0 <= j < width
  {
    AliveAt(lives, i, j, height, width, -1, -1) + AliveAt(lives, i, j, height, width, -1, 0)
    + AliveAt(lives, i, j, height, width, -1, 1) + AliveAt(lives, i, j, height, width, 0, -1)
    + AliveAt(lives, i, j, height, width, 0, 1) + AliveAt(lives, i, j, height, width, 1, -1)
    + AliveAt(lives, i, j, height, width, 1, 0) + AliveAt(lives, i, j, height, width, 1, 1)
  }

  /** Counting over `Neighbourhood` visits each of the eight offsets once. */
  lemma AliveAmongNeighbourhood(lives: Cells, i: int, j: int, height: nat, width: nat)
    requires Shaped(lives, height, width)
    requires 0 <= i < height && 0 <= j < width
    ensures AliveAmong(lives, i, j, height, width, Neighbourhood) == AliveSum(lives, i, j, height, width)
  {
    var n1 := [(-1, 0), (-1, 1), (0, -1), (0, 1), (1, -1), (1, 0), (1, 1)];
    var n3 := [(0, -1), (0, 1), (1, -1), (1, 0), (1, 1)];
    var n5 := [(1, -1), (1, 0), (1, 1)];
    var n7 := [(1, 1)];
    assert Neighbourhood[1..] == n1 && n1[1..][1..] == n3 && n3[1..][1..] == n5 && n5[1..][1..] == n7;
    assert AliveAmong(lives, i, j, height, width, n7)
        == AliveAt(lives, i, j, height, width, 1, 1);
    assert AliveAmong(lives, i, j, height, width, n5)
        == AliveAt(lives, i, j, height, width, 1, -1) + AliveAt(lives, i, j, height, width, 1, 0)
           + AliveAmong(lives, i, j, height, width, n7);
    assert AliveAmong(lives, i, j, height, width, n3)
        == AliveAt(lives, i, j, height, width, 0, -1) + AliveAt(lives, i, j, height, width, 0, 1)
           + AliveAmong(lives, i, j, height, width, n5);
    assert AliveAmong(lives, i, j, height, width, n1)
        == AliveAt(lives, i, j, height, width, -1, 0) + AliveAt(lives, i, j, height, width, -1, 1)
           + AliveAmong(lives, i, j, height, width, n3);
  }

  /** On a grid of 0s and 1s the neighbour sum is the number of live cells
      among the eight neighbours. */
  lemma NearSumCountsAlive(lives: Cells, i: int, j: int, height: nat, width: nat)
    requires Shaped(lives, height, width) && Binary(lives)
    requires 0 <= i < height && 0 <= j < width
    ensures NearSum(lives, i, j, height, width) == AliveAmong(lives, i, j, height, width, Neighbourhood)
  {
    AliveAmongNeighbourhood(lives, i, j, height, width);
    var up, down, left, right := (i - 1) % height, (i + 1) % height, (j - 1) % width, (j + 1) % width;
    Modular.ModSmall(i, height);
    Modular.ModSmall(j, width);
    assert AliveAt(lives, i, j, height, width, -1, -1) == lives[up][left];
    assert AliveAt(lives, i, j, height, width, -1, 0) == lives[up][j];
    assert AliveAt(lives, i, j, height, width, -1, 1) == lives[up][right];
    assert AliveAt(lives, i, j, height, width, 0, -1) == lives[i][left];
    assert AliveAt(lives, i, j, height, width, 0, 1) == lives[i][right];
    assert AliveAt(lives, i, j, height, width, 1, -1) == lives[down][left];
    assert AliveAt(lives, i, j, height, width, 1, 0) == lives[down][j];
    assert AliveAt(lives, i, j, height, width, 1, 1) == lives[down][right];
  }
}
