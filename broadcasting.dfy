/**
 * The broadcasting widget: a row vector `B` added to every row of a matrix
 * `A`, as `arrayA.map(row => row.map((val, c) => val + arrayB[c]))`.
 */
module BroadcastDemo {

  const ArrayA: seq<seq<int>> := [[10, 20, 30], [40, 50, 60], [70, 80, 90]]
  const ArrayB: seq<int> := [1, 2, 3]

  /**
   * `B` added to every row of `A`. Every row must be no longer than `B`: a
   * column past the end of `B` would read `undefined` in the source.
   */
  function Broadcast(a: seq<seq<int>>, b: seq<int>): (r: seq<seq<int>>)
    requires forall i :: 0 <= i < |a| ==> |a[i]| <= |b|
    ensures |r| == |a|
    ensures forall i :: 0 <= i < |a| ==> |r[i]| == |a[i]|
    ensures forall i, c :: 0 <= i < |a| && 0 <= c < |a[i]| ==> r[i][c] == a[i][c] + b[c]
  {
    seq(|a|, i requires 0 <= i < |a| =>
      seq(|a[i]|, c requires 0 <= c < |a[i]| => a[i][c] + b[c]))
  }

  // NumPy's account of the same operation: first stretch `B` to `A`'s shape
  // (the widget's "Broadcasting B to match A's shape" stage), then add
  // element by element.

  /** `B` repeated as `n` rows. */
  function Tile(b: seq<int>, n: nat): seq<seq<int>> {
    seq(n, i => b)
  }

  /** `x` and `y` have the same shape. */
  predicate SameShape(x: seq<seq<int>>, y: seq<seq<int>>) {
    |x| == |y| && forall i :: 0 <= i < |x| ==> |x[i]| == |y[i]|
  }

  /** Element-by-element sum of two matrices of the same shape. */
  function Add(x: seq<seq<int>>, y: seq<seq<int>>): (z: seq<seq<int>>)
    requires SameShape(x, y)
    ensures SameShape(z, x)
  {
    seq(|x|, i requires 0 <= i < |x| =>
      seq(|x[i]|, c requires 0 <= c < |x[i]| => x[i][c] + y[i][c]))
  }

  /** On a matrix whose rows are as long as `B`, broadcasting is adding the tiled `B`. */
  lemma BroadcastIsTiledAdd(a: seq<seq<int>>, b: seq<int>)
    requires forall i :: 0 <= i < |a| ==> |a[i]| == |b|
    ensures SameShape(a, Tile(b, |a|))
    ensures Broadcast(a, b) == Add(a, Tile(b, |a|))
  {
    var l, r := Broadcast(a, b), Add(a, Tile(b, |a|));
    forall i | 0 <= i < |a| ensures l[i] == r[i] {
    }
  }

  /** The vector with every entry negated. */
  function Negate(b: seq<int>): (n: seq<int>)
    ensures |n| == |b| && forall c :: 0 <= c < |b| ==> n[c] + b[c] == 0
  {
    seq(|b|, c requires 0 <= c < |b| => -b[c])
  }

  /** Broadcasting `-B` after `B` gives back `A`. */
  lemma BroadcastUndone(a: seq<seq<int>>, b: seq<int>)
    requires forall i :: 0 <= i < |a| ==> |a[i]| <= |b|
    ensures Broadcast(Broadcast(a, b), Negate(b)) == a
  {
    var once := Broadcast(a, b);
    var twice := Broadcast(once, Negate(b));
    forall i | 0 <= i < |a| ensures twice[i] == a[i] {
    }
  }

  /** The widget's result: `[[11, 22, 33], [41, 52, 63], [71, 82, 93]]`. */
  lemma DemoResult()
    ensures Broadcast(ArrayA, ArrayB) == [[11, 22, 33], [41, 52, 63], [71, 82, 93]]
  {
    var r := Broadcast(ArrayA, ArrayB);
    assert r[0] == [11, 22, 33] && r[1] == [41, 52, 63] && r[2] == [71, 82, 93];
  }
}
