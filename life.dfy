/**
 * Conway's Game of Life as the Game of Life widget of the interactive
 * visualizations runs it: a toroidal grid of integer cells, where the value 1
 * is a live cell and every other value is dead.
 *
 * `Step` is the specification of one generation; `RunSimulationStep` is the
 * widget's nested loops, writing into a fresh all-zero grid, proved to compute
 * `Step`.
 */
module GameOfLife {

  /** The eight neighbour offsets, in the order the widget visits them. */
  const Positions: seq<(int, int)> :=
    [(-1, -1), (-1, 0), (-1, 1), (0, -1), (0, 1), (1, -1), (1, 0), (1, 1)]

  /** `g` has exactly `rows` rows of `cols` cells each. */
  predicate IsGrid(g: seq<seq<int>>, rows: nat, cols: nat) {
    |g| == rows && forall i :: 0 <= i < rows ==> |g[i]| == cols
  }

  /** A grid of the right shape whose every cell is 0 or 1. */
  predicate IsBinaryGrid(g: seq<seq<int>>, rows: nat, cols: nat) {
    IsGrid(g, rows, cols) &&
    forall i, j :: 0 <= i < rows && 0 <= j < cols ==> g[i][j] == 0 || g[i][j] == 1
  }

  /** The all-zero grid of `generateEmptyGrid`. */
  function EmptyGrid(rows: nat, cols: nat): (g: seq<seq<int>>)
    ensures IsBinaryGrid(g, rows, cols)
    ensures forall i, j :: 0 <= i < rows && 0 <= j < cols ==> g[i][j] == 0
  {
    seq(rows, i => seq(cols, j => 0))
  }

  /**
   * `randomizeGrid` with `Math.random` replaced by `draw(i, j)`, the value it
   * returns for cell `(i, j)`: a cell is live exactly when its draw exceeds 0.75.
   */
  function RandomGrid(rows: nat, cols: nat, draw: (nat, nat) -> real): (g: seq<seq<int>>)
    ensures IsBinaryGrid(g, rows, cols)
    ensures forall i: nat, j: nat :: i < rows && j < cols ==> (g[i][j] == 1 <==> draw(i, j) > 0.75)
  {
    seq(rows, (i: nat) => seq(cols, (j: nat) => if draw(i, j) > 0.75 then 1 else 0))
  }

  /**
   * The wrapped index `(i + d + n) % n`. Its left operand is never negative,
   * so JavaScript's truncating `%` and Dafny's Euclidean `%` agree here.
   */
  function Wrap(i: int, d: int, n: nat): (r: nat)
    requires 0 <= i < n && -1 <= d <= 1
    ensures r < n
    ensures r == if i + d < 0 then n - 1 else if i + d == n then 0 else i + d
  {
    (i + d + n) % n
  }

  /** The cell that the `k`-th offset reaches from `(i, j)`, edges wrapping around. */
  function NeighborAt(g: seq<seq<int>>, rows: nat, cols: nat, i: nat, j: nat, k: nat): int
    requires IsGrid(g, rows, cols) && i < rows && j < cols && k < |Positions|
  {
    g[Wrap(i, Positions[k].0, rows)][Wrap(j, Positions[k].1, cols)]
  }

  /** The sum over the first `k` offsets: what `neighbors` holds after `k` visits. */
  function PartialCount(g: seq<seq<int>>, rows: nat, cols: nat, i: nat, j: nat, k: nat): int
    requires IsGrid(g, rows, cols) && i < rows && j < cols && k <= |Positions|
  {
    if k == 0 then 0
    else PartialCount(g, rows, cols, i, j, k - 1) + NeighborAt(g, rows, cols, i, j, k - 1)
  }

  /** The live-neighbour count of cell `(i, j)`; on a 0/1 grid it lies in 0..8. */
  function NeighborCount(g: seq<seq<int>>, rows: nat, cols: nat, i: nat, j: nat): (n: int)
    requires IsGrid(g, rows, cols) && i < rows && j < cols
    ensures IsBinaryGrid(g, rows, cols) ==> 0 <= n <= 8
  {
    if IsBinaryGrid(g, rows, cols) then
      PartialCountBounds(g, rows, cols, i, j, |Positions|);
      PartialCount(g, rows, cols, i, j, |Positions|)
    else
      PartialCount(g, rows, cols, i, j, |Positions|)
  }

  /** The next state of a cell holding `cell` with `n` live neighbours. */
  function NextCell(cell: int, n: int): (r: int)
    ensures r == 0 || r == 1
  {
    if cell == 1 then
      if n < 2 || n > 3 then 0 else 1
    else
      if n == 3 then 1 else 0
  }

  /** One generation. A grid with no rows or no columns is returned as it is. */
  function Step(g: seq<seq<int>>, rows: nat, cols: nat): (r: seq<seq<int>>)
    requires IsGrid(g, rows, cols)
    ensures IsBinaryGrid(r, rows, cols)
    ensures rows == 0 || cols == 0 ==> r == g
  {
    if rows == 0 || cols == 0 then g
    else
      seq(rows, i requires 0 <= i < rows =>
        seq(cols, j requires 0 <= j < cols =>
          NextCell(g[i][j], NeighborCount(g, rows, cols, i, j))))
  }

  /** The cell `(i, j)` of the next generation. */
  lemma StepAt(g: seq<seq<int>>, rows: nat, cols: nat, i: nat, j: nat)
    requires IsGrid(g, rows, cols) && i < rows && j < cols
    ensures Step(g, rows, cols)[i][j] == NextCell(g[i][j], NeighborCount(g, rows, cols, i, j))
  {
  }

  /** The sum of the eight cells around `(i, j)` on the torus, written out. */
  function ExpandedCount(g: seq<seq<int>>, rows: nat, cols: nat, i: nat, j: nat): int
    requires IsGrid(g, rows, cols) && i < rows && j < cols
  {
    var up, down, left, right := Wrap(i, -1, rows), Wrap(i, 1, rows), Wrap(j, -1, cols), Wrap(j, 1, cols);
    g[up][left] + g[up][j] + g[up][right] + g[i][left] + g[i][right] +
    g[down][left] + g[down][j] + g[down][right]
  }

  /** The running sum over the eight offsets is the sum of the eight wrapped cells. */
  lemma NeighborCountExpanded(g: seq<seq<int>>, rows: nat, cols: nat, i: nat, j: nat)
    requires IsGrid(g, rows, cols) && i < rows && j < cols
    ensures NeighborCount(g, rows, cols, i, j) == ExpandedCount(g, rows, cols, i, j)
  {
    assert Wrap(i, 0, rows) == i && Wrap(j, 0, cols) == j;
    assert PartialCount(g, rows, cols, i, j, 1) == NeighborAt(g, rows, cols, i, j, 0);
    assert PartialCount(g, rows, cols, i, j, 2) == PartialCount(g, rows, cols, i, j, 1) + NeighborAt(g, rows, cols, i, j, 1);
    assert PartialCount(g, rows, cols, i, j, 3) == PartialCount(g, rows, cols, i, j, 2) + NeighborAt(g, rows, cols, i, j, 2);
    assert PartialCount(g, rows, cols, i, j, 4) == PartialCount(g, rows, cols, i, j, 3) + NeighborAt(g, rows, cols, i, j, 3);
    assert PartialCount(g, rows, cols, i, j, 5) == PartialCount(g, rows, cols, i, j, 4) + NeighborAt(g, rows, cols, i, j, 4);
    assert PartialCount(g, rows, cols, i, j, 6) == PartialCount(g, rows, cols, i, j, 5) + NeighborAt(g, rows, cols, i, j, 5);
    assert PartialCount(g, rows, cols, i, j, 7) == PartialCount(g, rows, cols, i, j, 6) + NeighborAt(g, rows, cols, i, j, 6);
  }

  /** On a 0/1 grid the first `k` offsets contribute between 0 and `k` live cells. */
  lemma {:induction false} PartialCountBounds(g: seq<seq<int>>, rows: nat, cols: nat, i: nat, j: nat, k: nat)
    requires IsBinaryGrid(g, rows, cols) && i < rows && j < cols && k <= |Positions|
    ensures 0 <= PartialCount(g, rows, cols, i, j, k) <= k
  {
    if k > 0 {
      PartialCountBounds(g, rows, cols, i, j, k - 1);
    }
  }

  /** A live cell stays live exactly when it has 2 or 3 live neighbours. */
  lemma SurvivalRule(g: seq<seq<int>>, rows: nat, cols: nat, i: nat, j: nat)
    requires IsGrid(g, rows, cols) && i < rows && j < cols && g[i][j] == 1
    ensures var n := NeighborCount(g, rows, cols, i, j);
      Step(g, rows, cols)[i][j] == (if n == 2 || n == 3 then 1 else 0)
  {
  }

  /** A dead cell (any value but 1) becomes live exactly when it has 3 live neighbours. */
  lemma BirthRule(g: seq<seq<int>>, rows: nat, cols: nat, i: nat, j: nat)
    requires IsGrid(g, rows, cols) && i < rows && j < cols && g[i][j] != 1
    ensures var n := NeighborCount(g, rows, cols, i, j);
      Step(g, rows, cols)[i][j] == (if n == 3 then 1 else 0)
  {
  }

  /** Every prefix of the neighbour sum is 0 on the all-zero grid. */
  lemma {:induction false} PartialCountOfEmpty(rows: nat, cols: nat, i: nat, j: nat, k: nat)
    requires i < rows && j < cols && k <= |Positions|
    ensures PartialCount(EmptyGrid(rows, cols), rows, cols, i, j, k) == 0
  {
    if k > 0 {
      PartialCountOfEmpty(rows, cols, i, j, k - 1);
    }
  }

  /** The all-zero grid is a fixed point of `Step`. */
  lemma EmptyGridIsFixedPoint(rows: nat, cols: nat)
    ensures Step(EmptyGrid(rows, cols), rows, cols) == EmptyGrid(rows, cols)
  {
    var e := EmptyGrid(rows, cols);
    if rows > 0 && cols > 0 {
      var s := Step(e, rows, cols);
      forall i | 0 <= i < rows ensures s[i] == e[i] {
        forall j | 0 <= j < cols ensures s[i][j] == e[i][j] {
          PartialCountOfEmpty(rows, cols, i, j, |Positions|);
        }
      }
    }
  }

  /**
   * Edges wrap: the diagonal neighbour up and to the left of the corner
   * `(0, 0)` is the opposite corner `(rows - 1, cols - 1)`.
   */
  lemma CornerWrapsToOppositeCorner(g: seq<seq<int>>, rows: nat, cols: nat)
    requires IsGrid(g, rows, cols) && rows > 0 && cols > 0
    ensures NeighborAt(g, rows, cols, 0, 0, 0) == g[rows - 1][cols - 1]
    ensures NeighborAt(g, rows, cols, rows - 1, cols - 1, 7) == g[0][0]
  {
  }

  /** The grid of the given shape whose only live cell is `(a, b)`. */
  function Single(rows: nat, cols: nat, a: nat, b: nat): (g: seq<seq<int>>)
    ensures IsBinaryGrid(g, rows, cols)
  {
    seq(rows, i => seq(cols, j => if i == a && j == b then 1 else 0))
  }

  /**
   * With at least three rows and columns, the corner `(0, 0)` of a grid whose
   * only live cell is the opposite corner counts exactly one live neighbour.
   */
  lemma OppositeCornerIsCounted(rows: nat, cols: nat)
    requires rows >= 3 && cols >= 3
    ensures NeighborCount(Single(rows, cols, rows - 1, cols - 1), rows, cols, 0, 0) == 1
  {
    var g := Single(rows, cols, rows - 1, cols - 1);
    assert PartialCount(g, rows, cols, 0, 0, 1) == 1;
    assert PartialCount(g, rows, cols, 0, 0, 2) == 1;
    assert PartialCount(g, rows, cols, 0, 0, 3) == 1;
    assert PartialCount(g, rows, cols, 0, 0, 4) == 1;
    assert PartialCount(g, rows, cols, 0, 0, 5) == 1;
    assert PartialCount(g, rows, cols, 0, 0, 6) == 1;
    assert PartialCount(g, rows, cols, 0, 0, 7) == 1;
  }

  /** The cells of a two-dimensional array, row by row. */
  ghost function Contents(a: array2<int>): (s: seq<seq<int>>)
    reads a
    ensures IsGrid(s, a.Length0, a.Length1)
    ensures forall i, j :: 0 <= i < a.Length0 && 0 <= j < a.Length1 ==> s[i][j] == a[i, j]
  {
    seq(a.Length0, i requires 0 <= i < a.Length0 reads a =>
      seq(a.Length1, j requires 0 <= j < a.Length1 reads a => a[i, j]))
  }

  /** `generateEmptyGrid`: a fresh `rows` x `cols` grid of zeros. */
  method GenerateEmptyGrid(rows: nat, cols: nat) returns (a: array2<int>)
    ensures fresh(a)
    ensures a.Length0 == rows && a.Length1 == cols
    ensures Contents(a) == EmptyGrid(rows, cols)
  {
    a := new int[rows, cols]((i, j) => 0);
    var c, e := Contents(a), EmptyGrid(rows, cols);
    forall i | 0 <= i < rows ensures c[i] == e[i] {
    }
  }

  /** The `forEach` over the eight offsets: the live-neighbour count of `(i, j)`. */
  method CountNeighbors(g: array2<int>, rows: nat, cols: nat, i: nat, j: nat) returns (neighbors: int)
    requires g.Length0 == rows && g.Length1 == cols && i < rows && j < cols
    ensures neighbors == NeighborCount(Contents(g), rows, cols, i, j)
  {
    ghost var cur := Contents(g);
    neighbors := 0;
    var k := 0;
    while k < |Positions|
      invariant 0 <= k <= |Positions|
      invariant neighbors == PartialCount(cur, rows, cols, i, j, k)
    {
      var (x, y) := Positions[k];
      var newI := (i + x + rows) % rows;
      var newJ := (j + y + cols) % cols;
      neighbors := neighbors + g[newI, newJ];
      k := k + 1;
    }
  }

  /** The next-generation value of cell `(i, j)` of `g`. */
  ghost function NextAt(g: seq<seq<int>>, rows: nat, cols: nat, i: nat, j: nat): int
    requires IsGrid(g, rows, cols) && i < rows && j < cols
  {
    NextCell(g[i][j], NeighborCount(g, rows, cols, i, j))
  }

  /**
   * The inner `for` loop of `runSimulationStep`: fills row `i` of `next`,
   * whose cells start at 0, and leaves every other row alone.
   */
  method FillRow(g: array2<int>, next: array2<int>, rows: nat, cols: nat, i: nat)
    requires g.Length0 == rows && g.Length1 == cols && i < rows
    requires next.Length0 == rows && next.Length1 == cols && next != g
    requires forall b :: 0 <= b < cols ==> next[i, b] == 0
    modifies next
    ensures forall b :: 0 <= b < cols ==> next[i, b] == NextAt(Contents(g), rows, cols, i, b)
    ensures forall a, b :: 0 <= a < rows && a != i && 0 <= b < cols ==> next[a, b] == old(next[a, b])
  {
    ghost var cur := Contents(g);
    var j := 0;
    while j < cols
      invariant 0 <= j <= cols
      invariant Contents(g) == cur
      invariant forall b :: 0 <= b < j ==> next[i, b] == NextAt(cur, rows, cols, i, b)
      invariant forall b :: j <= b < cols ==> next[i, b] == 0
      invariant forall a, b :: 0 <= a < rows && a != i && 0 <= b < cols ==> next[a, b] == old(next[a, b])
    {
      var neighbors := CountNeighbors(g, rows, cols, i, j);
      var cell := g[i, j];
      if cell == 1 {
        if neighbors < 2 || neighbors > 3 {
          next[i, j] := 0;
        } else {
          next[i, j] := 1;
        }
      } else {
        if neighbors == 3 {
          next[i, j] := 1;
        }
      }
      j := j + 1;
    }
  }

  /**
   * `runSimulationStep`: the input grid is only read. A grid with no rows or
   * no columns is returned itself; otherwise a fresh grid holds `Step`.
   */
  method RunSimulationStep(g: array2<int>, rows: nat, cols: nat) returns (next: array2<int>)
    requires g.Length0 == rows && g.Length1 == cols
    ensures rows == 0 || cols == 0 ==> next == g
    ensures rows > 0 && cols > 0 ==> fresh(next)
    ensures next.Length0 == rows && next.Length1 == cols
    ensures Contents(next) == Step(Contents(g), rows, cols)
  {
    if rows == 0 || cols == 0 {
      return g;
    }
    ghost var cur := Contents(g);
    next := GenerateEmptyGrid(rows, cols);
    var i := 0;
    while i < rows
      invariant 0 <= i <= rows
      invariant Contents(g) == cur
      invariant forall a, b :: 0 <= a < i && 0 <= b < cols ==> next[a, b] == NextAt(cur, rows, cols, a, b)
      invariant forall a, b :: i <= a < rows && 0 <= b < cols ==> next[a, b] == 0
    {
      FillRow(g, next, rows, cols, i);
      i := i + 1;
    }
    ghost var got, want := Contents(next), Step(cur, rows, cols);
    forall a | 0 <= a < rows ensures got[a] == want[a] {
      forall b | 0 <= b < cols ensures got[a][b] == want[a][b] {
        StepAt(cur, rows, cols, a, b);
      }
    }
  }
}
