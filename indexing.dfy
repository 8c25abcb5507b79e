/**
 * The indexing and slicing widget: a 5x5 array holding `i * 5 + j`, a fixed
 * table of four NumPy selections with the cells each one highlights, and the
 * membership test that decides which cells are drawn highlighted.
 */
module IndexingDemo {

  /**
   * The demo array as a value: row `i`, column `j` holds `i * 5 + j`, so each
   * value names its own cell (row `v / 5`, column `v % 5`).
   */
  function DemoArray(): (a: seq<seq<int>>)
    ensures |a| == 5 && forall i :: 0 <= i < 5 ==> |a[i]| == 5
    ensures forall i, j :: 0 <= i < 5 && 0 <= j < 5 ==> 0 <= a[i][j] < 25 && a[i][j] / 5 == i && a[i][j] % 5 == j
  {
    seq(5, i => seq(5, j => i * 5 + j))
  }

  /**
   * `originalArray`: a 5x5 array of zeros filled by two nested loops, each
   * cell written once with `i * 5 + j`.
   */
  method BuildOriginalArray() returns (arr: array2<int>)
    ensures fresh(arr)
    ensures arr.Length0 == 5 && arr.Length1 == 5
    ensures forall i, j :: 0 <= i < 5 && 0 <= j < 5 ==> arr[i, j] == DemoArray()[i][j]
  {
    arr := new int[5, 5]((i, j) => 0);
    for i := 0 to 5
      invariant forall a, b :: 0 <= a < i && 0 <= b < 5 ==> arr[a, b] == a * 5 + b
    {
      for j := 0 to 5
        invariant forall a, b :: 0 <= a < i && 0 <= b < 5 ==> arr[a, b] == a * 5 + b
        invariant forall b :: 0 <= b < j ==> arr[i, b] == i * 5 + b
      {
        arr[i, j] := i * 5 + j;
      }
    }
  }

  /** Each of the values 0..24 appears exactly once, at `(v / 5, v % 5)`. */
  lemma EachValueExactlyOnce(v: int)
    requires 0 <= v < 25
    ensures 0 <= v / 5 < 5 && 0 <= v % 5 < 5 && DemoArray()[v / 5][v % 5] == v
    ensures forall i, j :: 0 <= i < 5 && 0 <= j < 5 && DemoArray()[i][j] == v ==> i == v / 5 && j == v % 5
  {
    forall i, j | 0 <= i < 5 && 0 <= j < 5 && DemoArray()[i][j] == v
      ensures i == v / 5 && j == v % 5
    {
      assert v == i * 5 + j;
    }
  }

  /** The four entries of the selection table. */
  datatype Selection = BasicSlice | FancyIndex | BooleanMask | ColumnSlice

  /** The NumPy expression each entry displays: an indexing of `data`. */
  function Code(s: Selection): (t: string)
    ensures |t| > 5 && t[..5] == "data[" && t[|t| - 1] == ']'
  {
    match s
    case BasicSlice => "data[1:4, 1:4]"
    case FancyIndex => "data[[0, 4], [1, 3]]"
    case BooleanMask => "data[data > 18]"
    case ColumnSlice => "data[:, 2]"
  }

  /** `p` comes strictly before `q` in row-major order. */
  predicate RowMajorBefore(p: (int, int), q: (int, int)) {
    p.0 < q.0 || (p.0 == q.0 && p.1 < q.1)
  }

  /**
   * The cells each entry highlights, exactly as the table lists them: cells of
   * the 5x5 array, in strictly increasing row-major order.
   */
  function Cells(s: Selection): (ps: seq<(int, int)>)
    ensures forall k :: 0 <= k < |ps| ==> 0 <= ps[k].0 < 5 && 0 <= ps[k].1 < 5
    ensures forall k :: 0 < k < |ps| ==> RowMajorBefore(ps[k - 1], ps[k])
  {
    match s
    case BasicSlice => [(1, 1), (1, 2), (1, 3), (2, 1), (2, 2), (2, 3), (3, 1), (3, 2), (3, 3)]
    case FancyIndex => [(0, 1), (4, 3)]
    case BooleanMask => [(3, 4), (4, 0), (4, 1), (4, 2), (4, 3), (4, 4)]
    case ColumnSlice => [(0, 2), (1, 2), (2, 2), (3, 2), (4, 2)]
  }

  // NumPy's own semantics for the four kinds of selection, as the positions
  // of the selected elements in the order NumPy returns them (row by row).

  /** Row `r`, columns `c0` up to but excluding `c1`. */
  function RowSpan(r: int, c0: int, c1: int): seq<(int, int)>
    requires c0 <= c1
  {
    seq(c1 - c0, k => (r, c0 + k))
  }

  /** `data[r0:r1, c0:c1]`. */
  function SlicePositions(r0: int, r1: int, c0: int, c1: int): seq<(int, int)>
    requires r0 <= r1 && c0 <= c1
    decreases r1 - r0
  {
    if r0 == r1 then [] else RowSpan(r0, c0, c1) + SlicePositions(r0 + 1, r1, c0, c1)
  }

  /** `data[rs, cs]` with two index lists: element `k` is at `(rs[k], cs[k])`. */
  function FancyPositions(rs: seq<int>, cs: seq<int>): seq<(int, int)>
    requires |rs| == |cs|
  {
    seq(|rs|, k requires 0 <= k < |rs| => (rs[k], cs[k]))
  }

  /** The cells of row `r` from column `c` on whose value exceeds `t`. */
  function MaskRow(a: seq<seq<int>>, r: nat, c: nat, t: int): seq<(int, int)>
    requires r < |a| && c <= |a[r]|
    decreases |a[r]| - c
  {
    if c == |a[r]| then []
    else (if a[r][c] > t then [(r as int, c as int)] else []) + MaskRow(a, r, c + 1, t)
  }

  /** `data[data > t]`: the cells from row `r` on whose value exceeds `t`. */
  function MaskPositions(a: seq<seq<int>>, r: nat, t: int): seq<(int, int)>
    requires r <= |a|
    decreases |a| - r
  {
    if r == |a| then [] else MaskRow(a, r, 0, t) + MaskPositions(a, r + 1, t)
  }

  /** `data[:, c]` on an array of `rows` rows. */
  function ColumnPositions(rows: nat, c: int): seq<(int, int)> {
    seq(rows, r => (r, c))
  }

  /** What NumPy selects for each entry's expression on the demo array. */
  function NumPySelection(s: Selection): seq<(int, int)> {
    match s
    case BasicSlice => SlicePositions(1, 4, 1, 4)
    case FancyIndex => FancyPositions([0, 4], [1, 3])
    case BooleanMask => MaskPositions(DemoArray(), 0, 18)
    case ColumnSlice => ColumnPositions(5, 2)
  }

  /** Each table entry lists exactly the cells NumPy selects, in NumPy's order. */
  lemma TableMatchesNumPy(s: Selection)
    ensures Cells(s) == NumPySelection(s)
  {
    match s
    case BasicSlice => BasicSliceMatches();
    case FancyIndex =>
    case BooleanMask => BooleanMaskMatches();
    case ColumnSlice =>
  }

  lemma BasicSliceMatches()
    ensures Cells(BasicSlice) == SlicePositions(1, 4, 1, 4)
  {
    assert SlicePositions(4, 4, 1, 4) == [];
    assert SlicePositions(3, 4, 1, 4) == [(3, 1), (3, 2), (3, 3)];
    assert SlicePositions(2, 4, 1, 4) == [(2, 1), (2, 2), (2, 3), (3, 1), (3, 2), (3, 3)];
  }

  lemma BooleanMaskMatches()
    ensures Cells(BooleanMask) == MaskPositions(DemoArray(), 0, 18)
  {
    var a := DemoArray();
    assert MaskRow(a, 4, 0, 18) == [(4, 0), (4, 1), (4, 2), (4, 3), (4, 4)];
    assert MaskRow(a, 3, 0, 18) == [(3, 4)] by {
      assert MaskRow(a, 3, 4, 18) == [(3, 4)];
      assert MaskRow(a, 3, 2, 18) == [(3, 4)];
    }
    assert MaskRow(a, 2, 0, 18) == [] by {
      assert MaskRow(a, 2, 3, 18) == [];
    }
    assert MaskRow(a, 1, 0, 18) == [] by {
      assert MaskRow(a, 1, 3, 18) == [];
    }
    assert MaskRow(a, 0, 0, 18) == [] by {
      assert MaskRow(a, 0, 3, 18) == [];
    }
  }

  /** Membership in each entry's selection, stated cell by cell. */
  predicate Selected(s: Selection, r: int, c: int) {
    match s
    case BasicSlice => 1 <= r < 4 && 1 <= c < 4
    case FancyIndex => (r == 0 && c == 1) || (r == 4 && c == 3)
    case BooleanMask => 0 <= r < 5 && 0 <= c < 5 && DemoArray()[r][c] > 18
    case ColumnSlice => 0 <= r < 5 && c == 2
  }

  /** `isHighlighted`: whether `(r, c)` is one of `cells` (the `some` over the list). */
  function IsHighlighted(cells: seq<(int, int)>, r: int, c: int): (b: bool)
    ensures b <==> (r, c) in cells
  {
    |cells| > 0 && (cells[0] == (r, c) || IsHighlighted(cells[1..], r, c))
  }

  /**
   * A cell is highlighted for an entry exactly when the entry's expression
   * selects it: "Boolean Mask" is the cells holding more than 18, "Column
   * Slice" is column 2.
   */
  lemma HighlightedIffSelected(s: Selection, r: int, c: int)
    ensures IsHighlighted(Cells(s), r, c) <==> Selected(s, r, c)
  {
    match s
    case BasicSlice => BasicSliceMembership(r, c);
    case FancyIndex =>
    case BooleanMask =>
      if 0 <= r < 5 && 0 <= c < 5 {
        assert DemoArray()[r][c] == r * 5 + c;
      }
    case ColumnSlice =>
  }

  lemma BasicSliceMembership(r: int, c: int)
    ensures (r, c) in Cells(BasicSlice) <==> 1 <= r < 4 && 1 <= c < 4
  {
  }

  /** What the widget shows: the highlighted cells and the expression text. */
  datatype View = View(highlighted: seq<(int, int)>, text: string)

  /** `handleSelection`: both parts switch to the chosen entry. */
  function HandleSelection(s: Selection): (v: View)
    ensures forall r, c :: IsHighlighted(v.highlighted, r, c) <==> Selected(s, r, c)
  {
    HighlightedIffSelectedAll(s);
    View(Cells(s), Code(s))
  }

  lemma HighlightedIffSelectedAll(s: Selection)
    ensures forall r, c :: IsHighlighted(Cells(s), r, c) <==> Selected(s, r, c)
  {
    forall r, c ensures IsHighlighted(Cells(s), r, c) <==> Selected(s, r, c) {
      HighlightedIffSelected(s, r, c);
    }
  }

  /** The first render: the "Basic Slice" text is shown, but no cell is highlighted yet. */
  function FirstRender(): (v: View)
    ensures v.text == Code(BasicSlice)
    ensures forall r, c :: !IsHighlighted(v.highlighted, r, c)
  {
    View([], Code(BasicSlice))
  }

  /** The mount effect: the "Basic Slice" cells are highlighted and the text is kept. */
  function MountEffect(v: View): (w: View)
    ensures w.text == v.text
    ensures forall r, c :: IsHighlighted(w.highlighted, r, c) <==> Selected(BasicSlice, r, c)
  {
    HighlightedIffSelectedAll(BasicSlice);
    View(Cells(BasicSlice), v.text)
  }

  /** After mounting, the widget shows what choosing "Basic Slice" shows. */
  lemma MountedViewIsBasicSlice()
    ensures MountEffect(FirstRender()) == HandleSelection(BasicSlice)
    ensures forall t :: IsActive(MountEffect(FirstRender()), t) <==> t == BasicSlice
  {
    forall t ensures IsActive(MountEffect(FirstRender()), t) <==> t == BasicSlice {
      ExactlyChosenIsActive(BasicSlice, t);
    }
  }

  /** A button is drawn active when the shown text is its entry's expression. */
  predicate IsActive(v: View, t: Selection) {
    v.text == Code(t)
  }

  /** After choosing an entry, its button and no other is active. */
  lemma ExactlyChosenIsActive(s: Selection, t: Selection)
    ensures IsActive(HandleSelection(s), t) <==> s == t
  {
  }
}
