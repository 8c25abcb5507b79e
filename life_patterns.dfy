/** Small Game of Life patterns on small tori: a still life and an oscillator. */
module LifePatterns {
  import opened GameOfLife

  /** A 2x2 block in the middle of a 4x4 torus. */
  const Block: seq<seq<int>> :=
    [[0, 0, 0, 0],
     [0, 1, 1, 0],
     [0, 1, 1, 0],
     [0, 0, 0, 0]]

  /** A horizontal blinker on a 4x4 torus: the fourth column keeps it apart from itself. */
  const BlinkerH: seq<seq<int>> :=
    [[0, 0, 0, 0],
     [1, 1, 1, 0],
     [0, 0, 0, 0],
     [0, 0, 0, 0]]

  /** The same blinker turned upright. */
  const BlinkerV: seq<seq<int>> :=
    [[0, 1, 0, 0],
     [0, 1, 0, 0],
     [0, 1, 0, 0],
     [0, 0, 0, 0]]

  /** Cells `j..n-1` of row `i` step to the values `e` holds there. */
  predicate RowStepsTo(g: seq<seq<int>>, e: seq<seq<int>>, n: nat, i: nat, j: nat)
    requires IsGrid(g, n, n) && IsGrid(e, n, n) && i < n && j <= n
    decreases n - j
  {
    j == n || (NextCell(g[i][j], ExpandedCount(g, n, n, i, j)) == e[i][j] && RowStepsTo(g, e, n, i, j + 1))
  }

  /** Rows `i..n-1` step to the rows of `e`, cell by cell. */
  predicate RowsStepTo(g: seq<seq<int>>, e: seq<seq<int>>, n: nat, i: nat)
    requires IsGrid(g, n, n) && IsGrid(e, n, n) && i <= n
    decreases n - i
  {
    i == n || (RowStepsTo(g, e, n, i, 0) && RowsStepTo(g, e, n, i + 1))
  }

  /** A checked cell `c` of row `i` steps to the value `e` holds there. */
  lemma {:induction false} RowStepsToAt(g: seq<seq<int>>, e: seq<seq<int>>, n: nat, i: nat, j: nat, c: nat)
    requires IsGrid(g, n, n) && IsGrid(e, n, n) && i < n && j <= c < n
    requires RowStepsTo(g, e, n, i, j)
    ensures Step(g, n, n)[i][c] == e[i][c]
    decreases c - j
  {
    if c == j {
      StepAt(g, n, n, i, c);
      NeighborCountExpanded(g, n, n, i, c);
    } else {
      RowStepsToAt(g, e, n, i, j + 1, c);
    }
  }

  /** A checked row `r` steps to row `r` of `e`. */
  lemma {:induction false} RowsStepToAt(g: seq<seq<int>>, e: seq<seq<int>>, n: nat, i: nat, r: nat)
    requires IsGrid(g, n, n) && IsGrid(e, n, n) && i <= r < n
    requires RowsStepTo(g, e, n, i)
    ensures RowStepsTo(g, e, n, r, 0)
    decreases r - i
  {
    if r > i {
      RowsStepToAt(g, e, n, i + 1, r);
    }
  }

  /** One step of `g` is `e` once every cell has been checked against the rule. */
  lemma StepsTo(g: seq<seq<int>>, e: seq<seq<int>>, n: nat)
    requires IsGrid(g, n, n) && IsGrid(e, n, n) && n > 0
    requires RowsStepTo(g, e, n, 0)
    ensures Step(g, n, n) == e
  {
    var s := Step(g, n, n);
    forall r | 0 <= r < n ensures s[r] == e[r] {
      RowsStepToAt(g, e, n, 0, r);
      forall c | 0 <= c < n ensures s[r][c] == e[r][c] {
        RowStepsToAt(g, e, n, r, 0, c);
      }
    }
  }

  /** Every cell of the block checks out against the rule. */
  lemma BlockCellsCheck()
    ensures RowsStepTo(Block, Block, 4, 0)
  {
  }

  /** The block is a still life: one step leaves it as it is. */
  lemma BlockIsStillLife()
    ensures Step(Block, 4, 4) == Block
  {
    BlockCellsCheck();
    StepsTo(Block, Block, 4);
  }

  /** Every cell of the horizontal blinker checks out against the upright one. */
  lemma BlinkerHCellsCheck()
    ensures RowsStepTo(BlinkerH, BlinkerV, 4, 0)
  {
  }

  /** A horizontal blinker turns upright in one step. */
  lemma BlinkerTurnsUpright()
    ensures Step(BlinkerH, 4, 4) == BlinkerV
  {
    BlinkerHCellsCheck();
    StepsTo(BlinkerH, BlinkerV, 4);
  }

  /** Every cell of the upright blinker checks out against the horizontal one. */
  lemma BlinkerVCellsCheck()
    ensures RowsStepTo(BlinkerV, BlinkerH, 4, 0)
  {
  }

  /** An upright blinker turns back in one step. */
  lemma BlinkerTurnsBack()
    ensures Step(BlinkerV, 4, 4) == BlinkerH
  {
    BlinkerVCellsCheck();
    StepsTo(BlinkerV, BlinkerH, 4);
  }

  /** The blinker has period 2: two steps restore it, one does not. */
  lemma BlinkerHasPeriodTwo()
    ensures Step(Step(BlinkerH, 4, 4), 4, 4) == BlinkerH
    ensures Step(BlinkerH, 4, 4) != BlinkerH
  {
    BlinkerTurnsUpright();
    BlinkerTurnsBack();
    assert BlinkerV[0][1] != BlinkerH[0][1];
  }
}
