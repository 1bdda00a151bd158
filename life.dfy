/** The rules of Conway's Game of Life on a bounded (non-wrapping) grid,
    stated on values: a grid is a sequence of rows, a row a sequence of cells.
    The engine in controller.dfy is proved to compute exactly these functions. */
module Life {

  datatype State = ALIVE | DEAD

  type Grid = seq<seq<State>>

  /** `g` has `rows` rows of `cols` cells each. */
  predicate IsGrid(g: Grid, rows: nat, cols: nat) {
    |g| == rows && forall i :: 0 <= i < |g| ==> |g[i]| == cols
  }

  /** (r, c) names a cell of `g`; any other position does not exist. */
  predicate InBounds(g: Grid, r: int, c: int) {
    0 <= r < |g| && 0 <= c < |g[r]|
  }

  /** 1 when (r, c) is a cell of `g` and that cell is alive; positions off the
      grid contribute nothing. */
  function LiveAt(g: Grid, r: int, c: int): nat {
    if InBounds(g, r, c) && g[r][c] == ALIVE then 1 else 0
  }

  /** The number of live cells among the eight cells that share an edge or a
      corner with (r, c). */
  function NeighborCount(g: Grid, r: int, c: int): nat {
    LiveAt(g, r - 1, c - 1) + LiveAt(g, r - 1, c) + LiveAt(g, r - 1, c + 1) +
    LiveAt(g, r, c - 1)                           + LiveAt(g, r, c + 1) +
    LiveAt(g, r + 1, c - 1) + LiveAt(g, r + 1, c) + LiveAt(g, r + 1, c + 1)
  }

  /** 1 when (r, c) is a cell of `g`, alive or not. */
  function Exists(g: Grid, r: int, c: int): nat {
    if InBounds(g, r, c) then 1 else 0
  }

  /** How many of the eight neighbouring positions of (r, c) exist. */
  function CandidateCount(g: Grid, r: int, c: int): nat {
    Exists(g, r - 1, c - 1) + Exists(g, r - 1, c) + Exists(g, r - 1, c + 1) +
    Exists(g, r, c - 1)                           + Exists(g, r, c + 1) +
    Exists(g, r + 1, c - 1) + Exists(g, r + 1, c) + Exists(g, r + 1, c + 1)
  }

  /** How many of the indices i - 1, i, i + 1 lie in [0, n). */
  function Span(i: int, n: nat): nat {
    (if 0 < i then 1 else 0) + 1 + (if i < n - 1 then 1 else 0)
  }

  /** The transition table: what a cell in state `s` with `n` live neighbours
      becomes in the next generation. */
  function NextState(s: State, n: nat): (t: State)
    ensures t == ALIVE <==> n == 3 || (s == ALIVE && n == 2)
  {
    match s
    case DEAD => if n == 3 then ALIVE else DEAD
    case ALIVE => if n < 2 then DEAD else if n <= 3 then ALIVE else DEAD
  }

  /** The next generation: every cell reads only the old grid `g`. */
  function Next(g: Grid): Grid {
    seq(|g|, i requires 0 <= i < |g| =>
      seq(|g[i]|, j requires 0 <= j < |g[i]| => NextState(g[i][j], NeighborCount(g, i, j))))
  }

  /** `k` generations after `g`. */
  function Iterate(g: Grid, k: nat): Grid {
    if k == 0 then g else Next(Iterate(g, k - 1))
  }

  /** A `rows` by `cols` grid with every cell dead. */
  function Dead(rows: nat, cols: nat): Grid {
    seq(rows, _ => seq(cols, _ => DEAD))
  }

  function Flip(s: State): State {
    if s == DEAD then ALIVE else DEAD
  }

  /** `g` with the one cell (r, c) flipped between ALIVE and DEAD. */
  function Toggled(g: Grid, r: int, c: int): (h: Grid)
    requires InBounds(g, r, c)
    ensures |h| == |g| && forall i :: 0 <= i < |g| ==> |h[i]| == |g[i]|
    ensures h[r][c] != g[r][c]
    ensures forall i, j :: InBounds(g, i, j) && (i != r || j != c) ==> h[i][j] == g[i][j]
  {
    g[r := g[r][c := Flip(g[r][c])]]
  }

  /** 1 when (i, j) lies in the rectangle of rows r0..r1 and columns c0..c1. */
  function InRect(i: int, j: int, r0: int, r1: int, c0: int, c1: int): nat {
    if r0 <= i <= r1 && c0 <= j <= c1 then 1 else 0
  }

  /** The live cells of `g` are exactly those of the rectangle of rows r0..r1
      and columns c0..c1. A lone cell, the 2 by 2 block and both phases of the
      blinker are such rectangles. */
  predicate AliveRect(g: Grid, r0: int, r1: int, c0: int, c1: int) {
    forall i, j :: 0 <= i < |g| && 0 <= j < |g[i]| ==> (g[i][j] == ALIVE <==> r0 <= i <= r1 && c0 <= j <= c1)
  }

  // ---------------------------------------------------------------------
  // Grid equality

  lemma GridsEqual(g: Grid, h: Grid)
    requires |g| == |h| && forall i :: 0 <= i < |g| ==> |g[i]| == |h[i]|
    requires forall i, j :: InBounds(g, i, j) ==> g[i][j] == h[i][j]
    ensures g == h
  {
    forall i | 0 <= i < |g| ensures g[i] == h[i] {
      assert forall j :: 0 <= j < |g[i]| ==> g[i][j] == h[i][j] by {
        forall j | 0 <= j < |g[i]| ensures g[i][j] == h[i][j] {
          assert InBounds(g, i, j);
        }
      }
    }
  }

  /** Two grids of the same shape with the same live cells are equal. */
  lemma SameAliveSameGrid(g: Grid, h: Grid)
    requires |g| == |h| && forall i :: 0 <= i < |g| ==> |g[i]| == |h[i]|
    requires forall i, j :: InBounds(g, i, j) ==> (g[i][j] == ALIVE <==> h[i][j] == ALIVE)
    ensures g == h
  {
    forall i, j | InBounds(g, i, j) ensures g[i][j] == h[i][j] {
      assert g[i][j] == ALIVE <==> h[i][j] == ALIVE;
    }
    GridsEqual(g, h);
  }

  // ---------------------------------------------------------------------
  // The neighbour count

  /** The count lies in [0, 8]; it never exceeds the number of neighbouring
      positions that exist, which is 3 at a corner of a grid at least 2 by 2,
      at most 5 on an edge and exactly 8 in the interior. */
  lemma {:induction false} NeighborCountBounds(g: Grid, rows: nat, cols: nat, r: int, c: int)
    requires IsGrid(g, rows, cols) && InBounds(g, r, c)
    ensures NeighborCount(g, r, c) <= CandidateCount(g, r, c) <= 8
    ensures CandidateCount(g, r, c) == Span(r, rows) * Span(c, cols) - 1
    ensures (r == 0 || r == rows - 1) && (c == 0 || c == cols - 1) ==> CandidateCount(g, r, c) <= 3
    ensures (r == 0 || r == rows - 1 || c == 0 || c == cols - 1) ==> CandidateCount(g, r, c) <= 5
    ensures 0 < r < rows - 1 && 0 < c < cols - 1 ==> CandidateCount(g, r, c) == 8
  {
  }

  /** The count at (r, c) depends only on the eight cells around (r, c). */
  lemma NeighborCountLocal(g: Grid, h: Grid, r: int, c: int)
    requires |g| == |h| && forall i :: 0 <= i < |g| ==> |g[i]| == |h[i]|
    requires forall i, j :: r - 1 <= i <= r + 1 && c - 1 <= j <= c + 1 && InBounds(g, i, j) ==> g[i][j] == h[i][j]
    ensures NeighborCount(g, r, c) == NeighborCount(h, r, c)
  {
  }

  /** A cell's next state depends only on the 3 by 3 block of the old grid
      centred on it: so cells can be evaluated in any order, as long as all of
      them read the old grid. */
  lemma NextIsLocal(g: Grid, h: Grid, r: int, c: int)
    requires |g| == |h| && forall i :: 0 <= i < |g| ==> |g[i]| == |h[i]|
    requires InBounds(g, r, c)
    requires forall i, j :: r - 1 <= i <= r + 1 && c - 1 <= j <= c + 1 && InBounds(g, i, j) ==> g[i][j] == h[i][j]
    ensures Next(g)[r][c] == Next(h)[r][c]
  {
  }

  /** Next keeps the shape of the grid. */
  lemma {:induction false} IterateShape(g: Grid, rows: nat, cols: nat, k: nat)
    requires IsGrid(g, rows, cols)
    ensures IsGrid(Iterate(g, k), rows, cols)
  {
    if k > 0 {
      IterateShape(g, rows, cols, k - 1);
    }
  }

  // ---------------------------------------------------------------------
  // Dead grids

  /** No spontaneous generation: a dead grid stays dead. */
  lemma DeadIsFixed(rows: nat, cols: nat)
    ensures Next(Dead(rows, cols)) == Dead(rows, cols)
  {
    var g := Dead(rows, cols);
    forall i, j | InBounds(Next(g), i, j) ensures Next(g)[i][j] == g[i][j] {
      assert NeighborCount(g, i, j) == 0;
    }
    GridsEqual(Next(g), g);
  }

  lemma {:induction false} DeadStaysDead(rows: nat, cols: nat, k: nat)
    ensures Iterate(Dead(rows, cols), k) == Dead(rows, cols)
  {
    if k > 0 {
      DeadStaysDead(rows, cols, k - 1);
      DeadIsFixed(rows, cols);
    }
  }

  // ---------------------------------------------------------------------
  // Rectangular patterns: a lone cell, the block, the blinker

  /** The neighbour count of any position, for a grid whose live cells form
      a rectangle: the number of rectangle cells among the eight around it. */
  lemma RectNeighborCount(g: Grid, rows: nat, cols: nat, r0: int, r1: int, c0: int, c1: int, i: int, j: int)
    requires IsGrid(g, rows, cols) && 0 <= r0 <= r1 < rows && 0 <= c0 <= c1 < cols
    requires AliveRect(g, r0, r1, c0, c1)
    ensures NeighborCount(g, i, j) ==
      InRect(i - 1, j - 1, r0, r1, c0, c1) + InRect(i - 1, j, r0, r1, c0, c1) + InRect(i - 1, j + 1, r0, r1, c0, c1) +
      InRect(i, j - 1, r0, r1, c0, c1) + InRect(i, j + 1, r0, r1, c0, c1) +
      InRect(i + 1, j - 1, r0, r1, c0, c1) + InRect(i + 1, j, r0, r1, c0, c1) + InRect(i + 1, j + 1, r0, r1, c0, c1)
  {
  }

  /** The four rules at one cell of any grid: a DEAD cell is born with exactly
      3 live neighbours and otherwise stays DEAD; an ALIVE cell dies with fewer
      than 2 (under-population) or more than 3 (overcrowding) and lives on
      with 2 or 3. */
  lemma RulesAt(g: Grid, r: int, c: int)
    requires InBounds(g, r, c)
    ensures g[r][c] == DEAD ==> (Next(g)[r][c] == ALIVE <==> NeighborCount(g, r, c) == 3)
    ensures g[r][c] == ALIVE && NeighborCount(g, r, c) < 2 ==> Next(g)[r][c] == DEAD
    ensures g[r][c] == ALIVE && NeighborCount(g, r, c) > 3 ==> Next(g)[r][c] == DEAD
    ensures g[r][c] == ALIVE && 2 <= NeighborCount(g, r, c) <= 3 ==> Next(g)[r][c] == ALIVE
  {
  }

  /** Under-population: a lone live cell dies, and the grid becomes all dead. */
  lemma LoneCellDies(g: Grid, rows: nat, cols: nat, r: int, c: int)
    requires IsGrid(g, rows, cols) && 0 <= r < rows && 0 <= c < cols
    requires AliveRect(g, r, r, c, c)
    ensures Next(g) == Dead(rows, cols)
  {
    forall i, j | InBounds(g, i, j) ensures Next(g)[i][j] == DEAD {
      RectNeighborCount(g, rows, cols, r, r, c, c, i, j);
    }
    GridsEqual(Next(g), Dead(rows, cols));
  }

  /** A 2 by 2 block of live cells with nothing else alive is a still life,
      wherever it sits on the grid. */
  lemma BlockIsStill(g: Grid, rows: nat, cols: nat, r: int, c: int)
    requires IsGrid(g, rows, cols) && 0 <= r && r + 1 < rows && 0 <= c && c + 1 < cols
    requires AliveRect(g, r, r + 1, c, c + 1)
    ensures Next(g) == g
  {
    forall i, j | InBounds(g, i, j) ensures Next(g)[i][j] == g[i][j] {
      RectNeighborCount(g, rows, cols, r, r + 1, c, c + 1, i, j);
      if r <= i <= r + 1 && c <= j <= c + 1 {
        assert NeighborCount(g, i, j) == 3;
      } else {
        assert NeighborCount(g, i, j) <= 2;
      }
    }
    GridsEqual(Next(g), g);
  }

  lemma {:induction false} BlockStaysStill(g: Grid, rows: nat, cols: nat, r: int, c: int, k: nat)
    requires IsGrid(g, rows, cols) && 0 <= r && r + 1 < rows && 0 <= c && c + 1 < cols
    requires AliveRect(g, r, r + 1, c, c + 1)
    ensures Iterate(g, k) == g
  {
    if k > 0 {
      BlockStaysStill(g, rows, cols, r, c, k - 1);
      BlockIsStill(g, rows, cols, r, c);
    }
  }

  /** A horizontal blinker (row r, columns c - 1..c + 1) with a row free above
      and below turns into the vertical one through the same centre. */
  lemma HorizontalTurnsVertical(g: Grid, rows: nat, cols: nat, r: int, c: int)
    requires IsGrid(g, rows, cols) && 0 < r < rows - 1 && 0 < c < cols - 1
    requires AliveRect(g, r, r, c - 1, c + 1)
    ensures IsGrid(Next(g), rows, cols) && AliveRect(Next(g), r - 1, r + 1, c, c)
  {
  }

  /** A vertical blinker (column c, rows r - 1..r + 1) with a column free left
      and right turns into the horizontal one through the same centre. */
  lemma VerticalTurnsHorizontal(g: Grid, rows: nat, cols: nat, r: int, c: int)
    requires IsGrid(g, rows, cols) && 0 < r < rows - 1 && 0 < c < cols - 1
    requires AliveRect(g, r - 1, r + 1, c, c)
    ensures IsGrid(Next(g), rows, cols) && AliveRect(Next(g), r, r, c - 1, c + 1)
  {
  }

  /** The blinker has period 2: even generations are the horizontal phase
      (the very grid it started from), odd ones the vertical phase. */
  lemma {:induction false} BlinkerPeriodTwo(g: Grid, rows: nat, cols: nat, r: int, c: int, k: nat)
    requires IsGrid(g, rows, cols) && 0 < r < rows - 1 && 0 < c < cols - 1
    requires AliveRect(g, r, r, c - 1, c + 1)
    ensures Iterate(g, 2 * k) == g
    ensures IsGrid(Iterate(g, 2 * k + 1), rows, cols) && AliveRect(Iterate(g, 2 * k + 1), r - 1, r + 1, c, c)
  {
    if k > 0 {
      BlinkerPeriodTwo(g, rows, cols, r, c, k - 1);
      var v := Iterate(g, 2 * k - 1);
      assert Iterate(g, 2 * k) == Next(v);
      VerticalTurnsHorizontal(v, rows, cols, r, c);
      forall i, j | InBounds(Next(v), i, j) ensures Next(v)[i][j] == ALIVE <==> g[i][j] == ALIVE {
      }
      SameAliveSameGrid(Next(v), g);
    }
    HorizontalTurnsVertical(Iterate(g, 2 * k), rows, cols, r, c);
  }

  /** Toggling the same cell twice restores the grid. */
  lemma ToggleTwice(g: Grid, r: int, c: int)
    requires InBounds(g, r, c)
    ensures Toggled(Toggled(g, r, c), r, c) == g
  {
    var h := Toggled(Toggled(g, r, c), r, c);
    assert h[r][c] == g[r][c];
    GridsEqual(h, g);
  }
}
