/** The generation engine of the controller: a grid of cells it owns, a
    double-buffered step that applies the rules of module Life to every cell,
    the neighbour count over eight row/column deltas, clearing, toggling one
    cell, and the generation counter, a Java `int`. */
module Controller {
  import opened Life

  const INT_MIN: int := -0x8000_0000
  const INT_MAX: int := 0x7fff_ffff

  /** `++n` on a Java `int`: the successor, wrapping from INT_MAX to INT_MIN. */
  function Increment(n: int): (r: int)
    requires INT_MIN <= n <= INT_MAX
    ensures INT_MIN <= r <= INT_MAX
    ensures (r - n - 1) % 0x1_0000_0000 == 0
  {
    if n == INT_MAX then INT_MIN else n + 1
  }

  /** The offsets of the eight neighbours, read pairwise: (RowDelta[k], ColDelta[k]). */
  const RowDelta: seq<int> := [-1, -1, -1, 0, 0, 1, 1, 1]
  const ColDelta: seq<int> := [-1, 0, 1, -1, 1, -1, 0, 1]

  /** Live cells among the first k neighbour offsets of (x, y). */
  function DeltaCount(g: Grid, x: int, y: int, k: nat): nat
    requires k <= 8
  {
    if k == 0 then 0 else DeltaCount(g, x, y, k - 1) + LiveAt(g, x + RowDelta[k - 1], y + ColDelta[k - 1])
  }

  /** The eight offsets are exactly the eight neighbours. */
  lemma DeltaCountIsNeighborCount(g: Grid, x: int, y: int)
    ensures DeltaCount(g, x, y, 8) == NeighborCount(g, x, y)
  {
    assert DeltaCount(g, x, y, 1) == LiveAt(g, x - 1, y - 1);
    assert DeltaCount(g, x, y, 2) == DeltaCount(g, x, y, 1) + LiveAt(g, x - 1, y);
    assert DeltaCount(g, x, y, 3) == DeltaCount(g, x, y, 2) + LiveAt(g, x - 1, y + 1);
    assert DeltaCount(g, x, y, 4) == DeltaCount(g, x, y, 3) + LiveAt(g, x, y - 1);
    assert DeltaCount(g, x, y, 5) == DeltaCount(g, x, y, 4) + LiveAt(g, x, y + 1);
    assert DeltaCount(g, x, y, 6) == DeltaCount(g, x, y, 5) + LiveAt(g, x + 1, y - 1);
    assert DeltaCount(g, x, y, 7) == DeltaCount(g, x, y, 6) + LiveAt(g, x + 1, y);
  }

  /** The bounds test of the neighbour loop compares only against -1 and the
      dimension; since every offset is -1, 0 or 1 this is the full bounds check. */
  lemma GuardIsBoundsCheck(rows: nat, cols: nat, x: int, y: int, k: nat)
    requires 0 <= x < rows && 0 <= y < cols && k < 8
    ensures (x + RowDelta[k] != -1 && x + RowDelta[k] != rows && y + ColDelta[k] != -1 && y + ColDelta[k] != cols)
        <==> (0 <= x + RowDelta[k] < rows && 0 <= y + ColDelta[k] < cols)
  {
  }

  /** The first pass over a fresh buffer: every cell DEAD. */
  method FillDead(a: array2<State>)
    modifies a
    ensures forall i, j :: 0 <= i < a.Length0 && 0 <= j < a.Length1 ==> a[i, j] == DEAD
  {
    var x := 0;
    while x < a.Length0
      invariant 0 <= x <= a.Length0
      invariant forall i, j :: 0 <= i < x && 0 <= j < a.Length1 ==> a[i, j] == DEAD
    {
      var y := 0;
      while y < a.Length1
        invariant 0 <= y <= a.Length1
        invariant forall i, j :: 0 <= i < x && 0 <= j < a.Length1 ==> a[i, j] == DEAD
        invariant forall j :: 0 <= j < y ==> a[x, j] == DEAD
      {
        a[x, y] := DEAD;
        y := y + 1;
      }
      x := x + 1;
    }
  }

  class Engine {
    const rows: nat
    const cols: nat
    const cells: array2<State>
    var generation: int

    ghost predicate Valid()
      reads this
    {
      cells.Length0 == rows && cells.Length1 == cols && INT_MIN <= generation <= INT_MAX
    }

    /** The grid as a value. */
    ghost function Universe(): (g: Grid)
      reads cells
      ensures IsGrid(g, cells.Length0, cells.Length1)
      ensures forall i, j :: 0 <= i < cells.Length0 && 0 <= j < cells.Length1 ==> g[i][j] == cells[i, j]
    {
      seq(cells.Length0, i requires 0 <= i < cells.Length0 reads cells =>
        seq(cells.Length1, j requires 0 <= j < cells.Length1 reads cells => cells[i, j]))
    }

    /** A rows by cols grid, every cell DEAD, at generation 0. */
    constructor (rows: nat, cols: nat)
      ensures Valid() && this.rows == rows && this.cols == cols && fresh(cells)
      ensures Universe() == Dead(rows, cols) && generation == 0
    {
      this.rows := rows;
      this.cols := cols;
      cells := new State[rows, cols]((i, j) => DEAD);
      generation := 0;
      new;
      GridsEqual(Universe(), Dead(rows, cols));
    }

    /** The number of live neighbours of (x, y), from the eight offsets. */
    method CountLiveNeighbors(x: int, y: int) returns (n: nat)
      requires Valid() && 0 <= x < rows && 0 <= y < cols
      ensures n == NeighborCount(Universe(), x, y) == DeltaCount(Universe(), x, y, 8)
    {
      n := 0;
      var r, c := 0, 0;
      while r < 8
        invariant 0 <= r <= 8 && c == r
        invariant n == DeltaCount(Universe(), x, y, r)
      {
        GuardIsBoundsCheck(rows, cols, x, y, r);
        if x + RowDelta[r] != -1 && x + RowDelta[r] != rows && y + ColDelta[c] != -1 && y + ColDelta[c] != cols {
          if cells[x + RowDelta[r], y + ColDelta[c]] == ALIVE {
            n := n + 1;
          }
        }
        r, c := r + 1, c + 1;
      }
      DeltaCountIsNeighborCount(Universe(), x, y);
    }

    /** One generation: a fresh buffer filled with DEAD, every cell's rule
        evaluated against the old grid into the buffer, then the buffer
        copied back. */
    method UpdateWorld()
      requires Valid()
      modifies cells
      ensures Valid()
      ensures Universe() == Next(old(Universe()))
    {
      var next := new State[rows, cols];
      FillDead(next);
      EvaluateRules(next);
      CopyBack(next);
      GridsEqual(Universe(), Next(old(Universe())));
    }

    /** The rule pass: with `next` all DEAD beforehand, afterwards each of its
        cells holds the old cell's successor; the grid itself is only read. */
    method EvaluateRules(next: array2<State>)
      requires Valid() && next != cells && next.Length0 == rows && next.Length1 == cols
      requires forall i, j :: 0 <= i < rows && 0 <= j < cols ==> next[i, j] == DEAD
      modifies next
      ensures forall i, j :: 0 <= i < rows && 0 <= j < cols ==> next[i, j] == Next(Universe())[i][j]
    {
      ghost var g := Universe();
      var x := 0;
      while x < rows
        invariant 0 <= x <= rows
        invariant forall i, j :: 0 <= i < x && 0 <= j < cols ==> next[i, j] == NextState(g[i][j], DeltaCount(g, i, j, 8))
        invariant forall i, j :: x <= i < rows && 0 <= j < cols ==> next[i, j] == DEAD
      {
        var y := 0;
        while y < cols
          invariant 0 <= y <= cols
          invariant forall i, j :: 0 <= i < x && 0 <= j < cols ==> next[i, j] == NextState(g[i][j], DeltaCount(g, i, j, 8))
          invariant forall j :: 0 <= j < y ==> next[x, j] == NextState(g[x][j], DeltaCount(g, x, j, 8))
          invariant forall i, j :: x <= i < rows && 0 <= j < cols && (i > x || j >= y) ==> next[i, j] == DEAD
        {
          ApplyRules(next, x, y);
          y := y + 1;
        }
        x := x + 1;
      }
      forall i, j | 0 <= i < rows && 0 <= j < cols ensures next[i, j] == Next(g)[i][j] {
        DeltaCountIsNeighborCount(g, i, j);
      }
    }

    /** The four rules for cell (x, y), written into a buffer cell that starts
        DEAD; no other buffer cell changes. */
    method ApplyRules(next: array2<State>, x: int, y: int)
      requires Valid() && next != cells && next.Length0 == rows && next.Length1 == cols
      requires 0 <= x < rows && 0 <= y < cols && next[x, y] == DEAD
      modifies next
      ensures next[x, y] == NextState(cells[x, y], DeltaCount(Universe(), x, y, 8))
      ensures forall i, j :: 0 <= i < rows && 0 <= j < cols && (i != x || j != y) ==> next[i, j] == old(next[i, j])
    {
      var n := CountLiveNeighbors(x, y);
      if cells[x, y] == DEAD {
        if n == 3 {
          next[x, y] := ALIVE;
        }
      }
      if cells[x, y] == ALIVE {
        if n < 2 {
          next[x, y] := DEAD;
        }
        if n == 2 || n == 3 {
          next[x, y] := ALIVE;
        }
        if n > 3 {
          next[x, y] := DEAD;
        }
      }
    }

    /** The copy-back pass: every cell takes the buffer's value. */
    method CopyBack(next: array2<State>)
      requires Valid() && next != cells && next.Length0 == rows && next.Length1 == cols
      modifies cells
      ensures forall i, j :: 0 <= i < rows && 0 <= j < cols ==> cells[i, j] == next[i, j]
    {
      var x := 0;
      while x < rows
        invariant 0 <= x <= rows
        invariant forall i, j :: 0 <= i < x && 0 <= j < cols ==> cells[i, j] == next[i, j]
      {
        var y := 0;
        while y < cols
          invariant 0 <= y <= cols
          invariant forall i, j :: 0 <= i < x && 0 <= j < cols ==> cells[i, j] == next[i, j]
          invariant forall j :: 0 <= j < y ==> cells[x, j] == next[x, j]
        {
          if next[x, y] == DEAD {
            cells[x, y] := DEAD;
          } else {
            cells[x, y] := ALIVE;
          }
          y := y + 1;
        }
        x := x + 1;
      }
    }

    /** The step trigger: one generation, then the counter's `++`; returns the
        new counter value, the one shown to the user. */
    method Step() returns (gen: int)
      requires Valid()
      modifies this, cells
      ensures Valid()
      ensures Universe() == Next(old(Universe()))
      ensures generation == Increment(old(generation)) && gen == generation
    {
      UpdateWorld();
      generation := Increment(generation);
      gen := generation;
    }

    /** The clear trigger: every cell DEAD and the counter back to 0, whatever
        the state before; so a second Clear changes nothing. */
    method Clear()
      requires Valid()
      modifies this, cells
      ensures Valid()
      ensures Universe() == Dead(rows, cols) && generation == 0
    {
      var x := 0;
      while x < rows
        modifies cells
        invariant 0 <= x <= rows
        invariant forall i, j :: 0 <= i < x && 0 <= j < cols ==> cells[i, j] == DEAD
      {
        var y := 0;
        while y < cols
          modifies cells
          invariant 0 <= y <= cols
          invariant forall i, j :: 0 <= i < x && 0 <= j < cols ==> cells[i, j] == DEAD
          invariant forall j :: 0 <= j < y ==> cells[x, j] == DEAD
        {
          cells[x, y] := DEAD;
          y := y + 1;
        }
        x := x + 1;
      }
      generation := 0;
      GridsEqual(Universe(), Dead(rows, cols));
    }

    /** A press on cell (x, y): that cell flips between DEAD and ALIVE, all
        the others and the counter stay as they were. */
    method Toggle(x: int, y: int)
      requires Valid() && 0 <= x < rows && 0 <= y < cols
      modifies cells
      ensures Valid()
      ensures Universe() == Toggled(old(Universe()), x, y)
    {
      ghost var g := Universe();
      if cells[x, y] == DEAD {
        cells[x, y] := ALIVE;
      } else {
        cells[x, y] := DEAD;
      }
      GridsEqual(Universe(), Toggled(g, x, y));
    }
  }

  /** Two clears in a row leave the same state as one: Clear's outcome does
      not depend on the state it starts from. */
  method ClearTwice(e: Engine)
    requires e.Valid()
    modifies e, e.cells
    ensures e.Valid() && e.Universe() == Dead(e.rows, e.cols) && e.generation == 0
  {
    e.Clear();
    ghost var once := e.Universe();
    ghost var gen := e.generation;
    e.Clear();
    assert e.Universe() == once && e.generation == gen;
  }
}
