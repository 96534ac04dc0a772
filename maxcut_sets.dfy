/**
  Max-cut heuristics over a weighted graph whose vertices are split into two
  sets x and y. The graph is an adjacency list and a square weight matrix
  indexed by vertex (vertex 0 is unused by the program). Sets of vertices are
  iterated in increasing order, which is how the loops below visit them:
  they walk the vertex range and look at the members.

  The sums the heuristics work with are written with `SumIn(row, s, k)`, the
  sum of row[i] over the members i of s below k.
 */
module MaxCutSets {

  // ---------------------------------------------------------------------
  // Sums over the members of a set

  /** The sum of row[i] over the members i of s with i < k. */
  function SumIn(row: seq<int>, s: set<int>, k: nat): int
    requires k <= |row|
  {
    if k == 0 then 0 else SumIn(row, s, k - 1) + (if k - 1 in s then row[k - 1] else 0)
  }

  /** Adding a new member t to the set adds row[t] to the sum when t lies below k. */
  lemma {:induction false} SumInInsert(row: seq<int>, s: set<int>, t: int, k: nat)
    requires k <= |row| && t !in s
    ensures SumIn(row, s + {t}, k) == SumIn(row, s, k) + (if 0 <= t < k then row[t] else 0)
  {
    if k > 0 {
      SumInInsert(row, s, t, k - 1);
    }
  }

  /** Removing a member t from the set takes row[t] off the sum when t lies below k. */
  lemma SumInRemove(row: seq<int>, s: set<int>, t: int, k: nat)
    requires k <= |row| && t in s
    ensures SumIn(row, s - {t}, k) == SumIn(row, s, k) - (if 0 <= t < k then row[t] else 0)
  {
    SumInInsert(row, s - {t}, t, k);
    assert (s - {t}) + {t} == s;
  }

  /** Summing a pointwise sum of rows is summing each row. */
  lemma {:induction false} SumInAdd(a: seq<int>, b: seq<int>, c: seq<int>, s: set<int>, k: nat)
    requires k <= |a| && k <= |b| && k <= |c|
    requires forall i :: 0 <= i < k ==> a[i] == b[i] + c[i]
    ensures SumIn(a, s, k) == SumIn(b, s, k) + SumIn(c, s, k)
  {
    if k > 0 {
      SumInAdd(a, b, c, s, k - 1);
    }
  }

  /** The sum depends only on the entries and the members below k. */
  lemma {:induction false} SumInSame(a: seq<int>, b: seq<int>, s: set<int>, t: set<int>, k: nat)
    requires k <= |a| && k <= |b|
    requires forall i :: 0 <= i < k ==> a[i] == b[i] && (i in s <==> i in t)
    ensures SumIn(a, s, k) == SumIn(b, t, k)
  {
    if k > 0 {
      SumInSame(a, b, s, t, k - 1);
    }
  }

  /** The sum of the absolute values of row[0..k). */
  function AbsSum(row: seq<int>, k: nat): (r: int)
    requires k <= |row|
    ensures r >= 0
  {
    if k == 0 then 0 else AbsSum(row, k - 1) + (if row[k - 1] < 0 then -row[k - 1] else row[k - 1])
  }

  /** However the members are chosen, the sum is at most the sum of absolute values. */
  lemma {:induction false} SumInBound(row: seq<int>, s: set<int>, k: nat)
    requires k <= |row|
    ensures -AbsSum(row, k) <= SumIn(row, s, k) <= AbsSum(row, k)
  {
    if k > 0 {
      SumInBound(row, s, k - 1);
    }
  }

  // ---------------------------------------------------------------------
  // Weight matrices and cuts

  /** An n x n weight matrix, n = |w|. */
  predicate Square(w: seq<seq<int>>)
  {
    forall i :: 0 <= i < |w| ==> |w[i]| == |w|
  }

  /** The matrix of an undirected graph: weight[u][v] == weight[v][u]. */
  predicate Symmetric(w: seq<seq<int>>)
    requires Square(w)
  {
    forall i, j :: 0 <= i < |w| && 0 <= j < |w| ==> w[i][j] == w[j][i]
  }

  /** No vertex has weight to itself. */
  predicate ZeroDiagonal(w: seq<seq<int>>)
    requires Square(w)
  {
    forall i :: 0 <= i < |w| ==> w[i][i] == 0
  }

  /** Every member of s is a vertex of an n-vertex matrix. */
  predicate Within(s: set<int>, n: int)
  {
    forall v :: v in s ==> 0 <= v < n
  }

  /** Column z of the matrix. */
  function Column(w: seq<seq<int>>, z: int): (c: seq<int>)
    requires Square(w) && 0 <= z < |w|
    ensures |c| == |w| && forall i :: 0 <= i < |w| ==> c[i] == w[i][z]
  {
    seq(|w|, i requires 0 <= i < |w| => w[i][z])
  }

  /** The weight from the members of s to z: the sum of weight[v][z] over v in s. */
  function WeightTo(w: seq<seq<int>>, z: int, s: set<int>): int
    requires Square(w) && 0 <= z < |w|
  {
    SumIn(Column(w, z), s, |w|)
  }

  /** The weight from v to the members of s: the sum of weight[v][u] over u in s. */
  function WeightFrom(w: seq<seq<int>>, v: int, s: set<int>): int
    requires Square(w) && 0 <= v < |w|
  {
    SumIn(w[v], s, |w|)
  }

  /** What moving v out of `before` into `after` gains: its weight to `before` minus its weight to `after`. */
  function Gain(w: seq<seq<int>>, v: int, before: set<int>, after: set<int>): int
    requires Square(w) && 0 <= v < |w|
  {
    WeightFrom(w, v, before) - WeightFrom(w, v, after)
  }

  /** For each vertex u, its weight to the members of y. */
  function WeightsFrom(w: seq<seq<int>>, y: set<int>): (r: seq<int>)
    requires Square(w)
    ensures |r| == |w| && forall u :: 0 <= u < |w| ==> r[u] == WeightFrom(w, u, y)
  {
    seq(|w|, u requires 0 <= u < |w| => WeightFrom(w, u, y))
  }

  /** The weight of the cut: the sum of weight[u][v] over u in x and v in y. */
  function CutValue(w: seq<seq<int>>, x: set<int>, y: set<int>): int
    requires Square(w)
  {
    SumIn(WeightsFrom(w, y), x, |w|)
  }

  /** The sum of the absolute values of all weights. */
  function TotalAbsWeight(w: seq<seq<int>>): (t: int)
    requires Square(w)
    ensures t >= 0
  {
    AbsSum(seq(|w|, u requires 0 <= u < |w| => AbsSum(w[u], |w|)), |w|)
  }

  /** On an undirected graph the weight to z from s is z's weight to s. */
  lemma WeightToFrom(w: seq<seq<int>>, z: int, s: set<int>)
    requires Square(w) && Symmetric(w) && 0 <= z < |w|
    ensures WeightTo(w, z, s) == WeightFrom(w, z, s)
  {
    SumInSame(Column(w, z), w[z], s, s, |w|);
  }

  /** On an undirected graph the cut weight does not depend on which side is called x. */
  lemma CutSymmetric(w: seq<seq<int>>, x: set<int>, y: set<int>)
    requires Square(w) && Symmetric(w)
    ensures CutValue(w, x, y) == CutValue(w, y, x)
  {
    var n := |w|;
    // Both sides are the double sum over pairs; swap the order of summation.
    DoubleSum(w, x, y, n);
    DoubleSum(w, y, x, n);
    SwapOrder(w, x, y, n, n);
  }

  /** The inner sum of the cut restricted to columns below m. */
  function PartialFrom(w: seq<seq<int>>, y: set<int>, m: nat): (r: seq<int>)
    requires Square(w) && m <= |w|
    ensures |r| == |w| && forall u :: 0 <= u < |w| ==> r[u] == SumIn(w[u], y, m)
  {
    seq(|w|, u requires 0 <= u < |w| => SumIn(w[u], y, m))
  }

  lemma DoubleSum(w: seq<seq<int>>, x: set<int>, y: set<int>, n: nat)
    requires Square(w) && n == |w|
    ensures SumIn(WeightsFrom(w, y), x, n) == SumIn(PartialFrom(w, y, n), x, n)
  {
    SumInSame(WeightsFrom(w, y), PartialFrom(w, y, n), x, x, n);
  }

  /** Sum over u in x below k of (sum over v in y below m of w[u][v]) equals the sum in the other order. */
  lemma {:induction false} SwapOrder(w: seq<seq<int>>, x: set<int>, y: set<int>, k: nat, m: nat)
    requires Square(w) && Symmetric(w) && k <= |w| && m <= |w|
    ensures SumIn(PartialFrom(w, y, m), x, k) == SumIn(PartialFrom(w, x, k), y, m)
    decreases m
  {
    if m > 0 {
      // Peel column m - 1 off the left-hand side.
      var c: seq<int> := seq(|w|, u requires 0 <= u < |w| => if m - 1 in y then w[u][m - 1] else 0);
      var a, b := PartialFrom(w, y, m), PartialFrom(w, y, m - 1);
      forall u | 0 <= u < |w|
        ensures a[u] == b[u] + c[u]
      {
        assert a[u] == SumIn(w[u], y, m);
      }
      SumInAdd(PartialFrom(w, y, m), PartialFrom(w, y, m - 1), c, x, k);
      SwapOrder(w, x, y, k, m - 1);
      // The peeled column, summed over x below k, is w's row m - 1 summed over x below k.
      var r := PartialFrom(w, x, k);
      assert SumIn(r, y, m) == SumIn(r, y, m - 1) + (if m - 1 in y then r[m - 1] else 0);
      if m - 1 in y {
        SumInSame(c, w[m - 1], x, x, k);
      } else {
        SumInZero(c, x, k);
      }
    } else {
      SumInZero(PartialFrom(w, y, 0), x, k);
    }
  }

  lemma {:induction false} SumInZero(c: seq<int>, s: set<int>, k: nat)
    requires k <= |c| && forall i :: 0 <= i < k ==> c[i] == 0
    ensures SumIn(c, s, k) == 0
  {
    if k > 0 {
      SumInZero(c, s, k - 1);
    }
  }

  /** However the sides are chosen, the cut weight is bounded by the total absolute weight. */
  lemma CutBound(w: seq<seq<int>>, x: set<int>, y: set<int>)
    requires Square(w)
    ensures -TotalAbsWeight(w) <= CutValue(w, x, y) <= TotalAbsWeight(w)
  {
    var n := |w|;
    var a := WeightsFrom(w, y);
    var b := seq(n, u requires 0 <= u < n => AbsSum(w[u], n));
    forall u | 0 <= u < n
      ensures -b[u] <= a[u] <= b[u]
    {
      SumInBound(w[u], y, n);
    }
    SumInDominated(a, b, x, n);
  }

  lemma {:induction false} SumInDominated(a: seq<int>, b: seq<int>, s: set<int>, k: nat)
    requires k <= |a| && k <= |b|
    requires forall i :: 0 <= i < k ==> -b[i] <= a[i] <= b[i]
    ensures -AbsSum(b, k) <= SumIn(a, s, k) <= AbsSum(b, k)
  {
    if k > 0 {
      SumInDominated(a, b, s, k - 1);
    }
  }

  /**
    Moving one vertex across the cut changes the cut weight by exactly the
    gain of the move, on an undirected graph without self-weights: moving v
    from x to y gains Gain(v, x, y), moving v from y to x gains Gain(v, y, x).
   */
  lemma MoveGain(w: seq<seq<int>>, x: set<int>, y: set<int>, v: int)
    requires Square(w) && Symmetric(w) && ZeroDiagonal(w) && 0 <= v < |w|
    requires v in x && v !in y
    ensures CutValue(w, x - {v}, y + {v}) == CutValue(w, x, y) + Gain(w, v, x, y)
    ensures CutValue(w, y + {v}, x - {v}) == CutValue(w, y, x) + Gain(w, v, x, y)
  {
    var n := |w|;
    var x', y' := x - {v}, y + {v};
    var a, a' := WeightsFrom(w, y), WeightsFrom(w, y');
    var col := Column(w, v);
    forall u | 0 <= u < n
      ensures a'[u] == a[u] + col[u]
    {
      SumInInsert(w[u], y, v, n);
    }
    SumInAdd(a', a, col, x', n);
    SumInRemove(a, x, v, n);
    SumInRemove(col, x, v, n);
    WeightToFrom(w, v, x);
    CutSymmetric(w, x', y');
    CutSymmetric(w, x, y);
  }

  // ---------------------------------------------------------------------
  // The operations

  /** The sum of weight[u][v] over u in x and v in y. */
  method CutWeight(x: set<int>, y: set<int>, w: seq<seq<int>>) returns (r: int)
    requires Square(w) && Within(x, |w|) && Within(y, |w|)
    ensures r == CutValue(w, x, y)
  {
    var n := |w|;
    r := 0;
    for u := 0 to n
      invariant r == SumIn(WeightsFrom(w, y), x, u)
    {
      if u in x {
        var inner := 0;
        for v := 0 to n
          invariant inner == SumIn(w[u], y, v)
        {
          if v in y {
            inner := inner + w[u][v];
          }
        }
        r := r + inner;
      }
    }
  }

  /** The cut weight of a solution given as a pair of sides. */
  method CutWeightOfPair(solution: (set<int>, set<int>), w: seq<seq<int>>) returns (r: int)
    requires Square(w) && Within(solution.0, |w|) && Within(solution.1, |w|)
    ensures r == CutValue(w, solution.0, solution.1)
  {
    r := CutWeight(solution.0, solution.1, w);
  }

  /** The sum of weight[v][z] over v in s: what z adds to the cut if placed opposite s. */
  method IfIncluded(z: int, s: set<int>, w: seq<seq<int>>) returns (r: int)
    requires Square(w) && 0 <= z < |w| && Within(s, |w|)
    ensures r == WeightTo(w, z, s)
  {
    r := 0;
    for v := 0 to |w|
      invariant r == SumIn(Column(w, z), s, v)
    {
      if v in s {
        r := r + w[v][z];
      }
    }
  }

  /** v's weight to `before` minus its weight to `after`. */
  method Delta(v: int, before: set<int>, after: set<int>, w: seq<seq<int>>) returns (r: int)
    requires Square(w) && 0 <= v < |w| && Within(before, |w|) && Within(after, |w|)
    ensures r == Gain(w, v, before, after)
  {
    r := 0;
    for u := 0 to |w|
      invariant r == SumIn(w[v], before, u)
    {
      if u in before {
        r := r + w[v][u];
      }
    }
    for u := 0 to |w|
      invariant r == WeightFrom(w, v, before) - SumIn(w[v], after, u)
    {
      if u in after {
        r := r - w[v][u];
      }
    }
  }

  // ---------------------------------------------------------------------
  // The seed edge

  /** Every neighbour listed for vertices 1.. is a vertex of the n-vertex matrix. */
  predicate Adjacency(list: seq<seq<int>>, n: int)
  {
    forall i, j :: 1 <= i < |list| && 0 <= j < |list[i]| ==> 0 <= list[i][j] < n
  }

  /** The scan visits list entry (i, j) for every vertex i >= 1 and every position j of its list. */
  predicate Scanned(list: seq<seq<int>>, i: int, j: int)
  {
    1 <= i < |list| && 0 <= j < |list[i]|
  }

  /** (i', j') is visited before (i, j): an earlier list, or an earlier position in the same list. */
  predicate ScannedBefore(i': int, j': int, i: int, j: int)
  {
    i' < i || (i' == i && j' < j)
  }

  /** The weight the scan compares at (i, j): between list[i]'s first neighbour and its j-th. */
  function ScanWeight(list: seq<seq<int>>, w: seq<seq<int>>, i: int, j: int): int
    requires Square(w) && Adjacency(list, |w|) && Scanned(list, i, j)
  {
    w[list[i][0]][list[i][j]]
  }

  /** Some scanned weight beats the scan's starting maximum of -1. */
  ghost predicate HasCandidate(list: seq<seq<int>>, w: seq<seq<int>>)
    requires Square(w) && Adjacency(list, |w|)
  {
    exists i, j :: Scanned(list, i, j) && ScanWeight(list, w, i, j) > -1
  }

  /** (i, j) holds the largest scanned weight, and every entry scanned before it holds less. */
  ghost predicate FirstMaxAt(list: seq<seq<int>>, w: seq<seq<int>>, i: int, j: int)
    requires Square(w) && Adjacency(list, |w|)
  {
    && Scanned(list, i, j) && ScanWeight(list, w, i, j) > -1
    && (forall i', j' :: Scanned(list, i', j') ==> ScanWeight(list, w, i', j') <= ScanWeight(list, w, i, j))
    && (forall i', j' :: Scanned(list, i', j') && ScannedBefore(i', j', i, j) ==>
          ScanWeight(list, w, i', j') < ScanWeight(list, w, i, j))
  }

  /**
    The "maximum-weight edge" as the program computes it: for each non-empty
    list i it pairs u = list[i][0] (the first neighbour, not i itself) with
    every v in list[i], and keeps the first pair whose weight is strictly
    largest, starting from -1. When no weight beats -1 the program's result
    is uninitialised; here `found` is false.
   */
  method MaxWeightEdge(list: seq<seq<int>>, w: seq<seq<int>>) returns (found: bool, u: int, v: int)
    requires Square(w) && Adjacency(list, |w|)
    ensures found <==> HasCandidate(list, w)
    ensures found ==> exists i, j :: FirstMaxAt(list, w, i, j) && u == list[i][0] && v == list[i][j]
  {
    var maxW := -1;
    found, u, v := false, 0, 0;
    ghost var bi, bj := 0, 0;
    var i := 1;
    while i < |list|
      invariant 1 <= i
      invariant found ==> Scanned(list, bi, bj) && bi < i && u == list[bi][0] && v == list[bi][bj]
                          && maxW == ScanWeight(list, w, bi, bj) && maxW > -1
      invariant !found ==> maxW == -1
      invariant forall i', j' :: Scanned(list, i', j') && i' < i ==> ScanWeight(list, w, i', j') <= maxW
      invariant found ==> forall i', j' :: Scanned(list, i', j') && ScannedBefore(i', j', bi, bj) ==>
                            ScanWeight(list, w, i', j') < maxW
    {
      if list[i] != [] {
        var first := list[i][0];
        for j := 0 to |list[i]|
          invariant found ==> Scanned(list, bi, bj) && ScannedBefore(bi, bj, i, j) && u == list[bi][0] && v == list[bi][bj]
                              && maxW == ScanWeight(list, w, bi, bj) && maxW > -1
          invariant !found ==> maxW == -1
          invariant forall i', j' :: Scanned(list, i', j') && ScannedBefore(i', j', i, j) ==> ScanWeight(list, w, i', j') <= maxW
          invariant found ==> forall i', j' :: Scanned(list, i', j') && ScannedBefore(i', j', bi, bj) ==>
                                ScanWeight(list, w, i', j') < maxW
        {
          var next := list[i][j];
          if w[first][next] > maxW {
            maxW := w[first][next];
            found, u, v := true, first, next;
            bi, bj := i, j;
          }
        }
      }
      i := i + 1;
    }
    if found {
      assert FirstMaxAt(list, w, bi, bj);
    }
  }

  // ---------------------------------------------------------------------
  // The greedy construction

  /** The members of s in 1..z-1. */
  function Below(s: set<int>, z: int): set<int>
  {
    set t | t in s && 1 <= t < z
  }

  /**
    What the greedy construction promises, for seeds u and v and vertices
    1..n-1: u is in x and v in y; every other vertex is in exactly one
    side, and it went to x exactly when its weight to y (v and the vertices
    below it already placed in y) beat its weight to x (u and the vertices
    below it already placed in x).
   */
  ghost predicate GreedyResult(w: seq<seq<int>>, n: int, u: int, v: int, x: set<int>, y: set<int>)
    requires Square(w) && n <= |w| && 0 <= u < |w| && 0 <= v < |w|
  {
    && u in x && v in y
    && (forall t :: t in x ==> t == u || (1 <= t < n && t != v))
    && (forall t :: t in y ==> t == v || (1 <= t < n && t != u))
    && (forall t :: 1 <= t < n ==> t in x || t in y)
    && (forall t :: 1 <= t < n && t != u && t != v ==>
          && (t in x <==> t !in y)
          && (t in x <==> WeightTo(w, t, {v} + Below(y, t)) > WeightTo(w, t, {u} + Below(x, t))))
  }

  /** With distinct seeds the greedy sides are disjoint and lie on the vertex range. */
  lemma GreedyIsPartition(w: seq<seq<int>>, n: int, u: int, v: int, x: set<int>, y: set<int>)
    requires Square(w) && n <= |w| && 0 <= u < |w| && 0 <= v < |w|
    requires GreedyResult(w, n, u, v, x, y) && u != v
    ensures x * y == {} && Within(x, |w|) && Within(y, |w|)
  {
    forall t | t in x
      ensures t !in y
    {
    }
  }

  /** One more vertex t placed by the set-based greedy rule keeps its promise for the vertices 1..t. */
  lemma GreedyResultStep(w: seq<seq<int>>, u: int, v: int, t: int, x: set<int>, y: set<int>)
    requires Square(w) && 0 <= u < |w| && 0 <= v < |w| && 1 <= t < |w|
    requires GreedyResult(w, t, u, v, x, y)
    ensures t == u || t == v ==> GreedyResult(w, t + 1, u, v, x, y)
    ensures t != u && t != v && WeightTo(w, t, y) > WeightTo(w, t, x) ==> GreedyResult(w, t + 1, u, v, x + {t}, y)
    ensures t != u && t != v && WeightTo(w, t, y) <= WeightTo(w, t, x) ==> GreedyResult(w, t + 1, u, v, x, y + {t})
  {
    if t != u && t != v {
      assert x == {u} + Below(x, t) && y == {v} + Below(y, t);
      forall s | 1 <= s <= t
        ensures Below(x + {t}, s) == Below(x, s) && Below(y + {t}, s) == Below(y, s)
      {
      }
    }
  }

  /**
    The construction loop: starting from x = {u} and y = {v}, each vertex z
    in 1..|list|-1 other than the seeds goes to x if its weight to y exceeds
    its weight to x, and to y otherwise.
   */
  method GreedyFromSeed(list: seq<seq<int>>, w: seq<seq<int>>, u: int, v: int) returns (x: set<int>, y: set<int>)
    requires Square(w) && |list| <= |w| && 0 <= u < |w| && 0 <= v < |w|
    ensures GreedyResult(w, |list|, u, v, x, y)
  {
    x, y := {u}, {v};
    var z := 1;
    while z < |list|
      invariant 1 <= z && (z <= |list| || z == 1)
      invariant Within(x, |w|) && Within(y, |w|)
      invariant GreedyResult(w, z, u, v, x, y)
    {
      GreedyResultStep(w, u, v, z, x, y);
      if z != u && z != v {
        var wx := IfIncluded(z, y, w);
        var wy := IfIncluded(z, x, w);
        if wx > wy {
          x := x + {z};
        } else {
          y := y + {z};
        }
      }
      z := z + 1;
    }
  }

  /**
    The greedy construction as the program runs it: seeded with the pair
    MaxWeightEdge returns (so x and y share a vertex when that pair repeats
    one vertex).
   */
  method GreedyMaxCut(list: seq<seq<int>>, w: seq<seq<int>>) returns (x: set<int>, y: set<int>)
    requires Square(w) && Adjacency(list, |w|) && |list| <= |w| && HasCandidate(list, w)
    ensures exists i, j :: FirstMaxAt(list, w, i, j) && GreedyResult(w, |list|, list[i][0], list[i][j], x, y)
  {
    var found, u, v := MaxWeightEdge(list, w);
    x, y := GreedyFromSeed(list, w, u, v);
  }

  /**
    Vertex ids 1..3 on the path 1 - 2 - 3 with weights 5: the lists are
    [2], [1, 3], [2], and every pair the scan compares is a vertex with
    itself or two non-adjacent vertices, all of weight 0. The first of
    them, (2, 2), is the only possible result, so the greedy sides both
    start with vertex 2.
   */
  lemma MaxWeightEdgeRepeatsVertex()
    ensures var list := [[], [2], [1, 3], [2]];
      var w := [[0, 0, 0, 0], [0, 0, 5, 0], [0, 5, 0, 5], [0, 0, 5, 0]];
      && Square(w) && Adjacency(list, |w|) && HasCandidate(list, w)
      && (forall i, j :: FirstMaxAt(list, w, i, j) ==> list[i][0] == 2 && list[i][j] == 2)
  {
    var list := [[], [2], [1, 3], [2]];
    var w := [[0, 0, 0, 0], [0, 0, 5, 0], [0, 5, 0, 5], [0, 0, 5, 0]];
    assert Scanned(list, 1, 0) && ScanWeight(list, w, 1, 0) == 0;
    assert forall i, j :: Scanned(list, i, j) ==> ScanWeight(list, w, i, j) == 0;
    forall i, j | FirstMaxAt(list, w, i, j)
      ensures list[i][0] == 2 && list[i][j] == 2
    {
      if (i, j) != (1, 0) {
        assert false;
      }
    }
  }

  // --- the corrected seed

  /** The weight of the edge from vertex i to its j-th neighbour. */
  function EdgeWeight(list: seq<seq<int>>, w: seq<seq<int>>, i: int, j: int): int
    requires Square(w) && Adjacency(list, |w|) && Scanned(list, i, j) && i < |w|
  {
    w[i][list[i][j]]
  }

  /** No vertex is listed as its own neighbour. */
  ghost predicate NoSelfLoops(list: seq<seq<int>>)
  {
    forall i, j :: Scanned(list, i, j) ==> list[i][j] != i
  }

  /**
    The seed edge as intended: over every listed edge (i, list[i][j]),
    the first of largest weight, starting from -1. When some edge weighs at
    least 0 it returns both endpoints of that edge, and with no self-loops
    they are two different vertices.
   */
  method MaxWeightEdgeFixed(list: seq<seq<int>>, w: seq<seq<int>>) returns (found: bool, u: int, v: int)
    requires Square(w) && Adjacency(list, |w|) && |list| <= |w|
    ensures found <==> exists i, j :: Scanned(list, i, j) && EdgeWeight(list, w, i, j) > -1
    ensures found ==> exists j :: (&& Scanned(list, u, j) && v == list[u][j]
      && (forall i', j' :: Scanned(list, i', j') ==> EdgeWeight(list, w, i', j') <= w[u][v])
      && (forall i', j' :: Scanned(list, i', j') && ScannedBefore(i', j', u, j) ==> EdgeWeight(list, w, i', j') < w[u][v]))
    ensures found && NoSelfLoops(list) ==> u != v
  {
    var maxW := -1;
    found, u, v := false, 0, 0;
    ghost var bj := 0;
    var i := 1;
    while i < |list|
      invariant 1 <= i
      invariant found ==> Scanned(list, u, bj) && u < i && v == list[u][bj] && maxW == w[u][v] && maxW > -1
      invariant !found ==> maxW == -1
      invariant forall i', j' :: Scanned(list, i', j') && i' < i ==> EdgeWeight(list, w, i', j') <= maxW
      invariant found ==> forall i', j' :: Scanned(list, i', j') && ScannedBefore(i', j', u, bj) ==>
                            EdgeWeight(list, w, i', j') < maxW
    {
      for j := 0 to |list[i]|
        invariant found ==> Scanned(list, u, bj) && ScannedBefore(u, bj, i, j) && v == list[u][bj] && maxW == w[u][v] && maxW > -1
        invariant !found ==> maxW == -1
        invariant forall i', j' :: Scanned(list, i', j') && ScannedBefore(i', j', i, j) ==> EdgeWeight(list, w, i', j') <= maxW
        invariant found ==> forall i', j' :: Scanned(list, i', j') && ScannedBefore(i', j', u, bj) ==>
                              EdgeWeight(list, w, i', j') < maxW
      {
        var next := list[i][j];
        if w[i][next] > maxW {
          maxW := w[i][next];
          found, u, v := true, i, next;
          bj := j;
        }
      }
      i := i + 1;
    }
  }

  /**
    The greedy construction seeded with the corrected edge: with no
    self-loops, x and y are disjoint, cover the vertices 1..|list|-1 and
    contain the two endpoints of a heaviest listed edge.
   */
  method GreedyMaxCutFixed(list: seq<seq<int>>, w: seq<seq<int>>) returns (x: set<int>, y: set<int>)
    requires Square(w) && Adjacency(list, |w|) && |list| <= |w| && NoSelfLoops(list)
    requires exists i, j :: Scanned(list, i, j) && EdgeWeight(list, w, i, j) > -1
    ensures exists u, v :: 0 <= u < |w| && 0 <= v < |w| && u != v && GreedyResult(w, |list|, u, v, x, y)
    ensures x * y == {} && Within(x, |w|) && Within(y, |w|)
    ensures forall t :: 1 <= t < |list| ==> t in x || t in y
  {
    var found, u, v := MaxWeightEdgeFixed(list, w);
    x, y := GreedyFromSeed(list, w, u, v);
    GreedyIsPartition(w, |list|, u, v, x, y);
  }

  // ---------------------------------------------------------------------
  // Local search

  /** A member of one of two disjoint sets is not in the other. */
  lemma NotInOther(a: set<int>, b: set<int>, e: int)
    requires a * b == {} && e in a
    ensures e !in b
  {
    assert e !in a * b;
  }

  /** No vertex of x gains by moving to y and no vertex of y gains by moving to x. */
  ghost predicate LocalOptimum(w: seq<seq<int>>, x: set<int>, y: set<int>)
    requires Square(w) && Within(x, |w|) && Within(y, |w|)
  {
    (forall v :: v in x ==> Gain(w, v, x, y) <= 0) && (forall v :: v in y ==> Gain(w, v, y, x) <= 0)
  }

  /**
    Hill climbing: repeatedly finds the vertex whose move to the other side
    gains the most (the first one, scanning x and then y in increasing
    order, with strictly positive gain) and moves it, until no move gains.
    On an undirected graph without self-weights each move raises the cut
    weight by its gain, which bounds the number of moves.
   */
  method LocalSearch(x: set<int>, y: set<int>, w: seq<seq<int>>) returns (x': set<int>, y': set<int>)
    requires Square(w) && Symmetric(w) && ZeroDiagonal(w)
    requires Within(x, |w|) && Within(y, |w|) && x * y == {} && 0 !in x + y
    ensures Within(x', |w|) && Within(y', |w|) && x' * y' == {} && x' + y' == x + y
    ensures LocalOptimum(w, x', y')
    ensures CutValue(w, x', y') >= CutValue(w, x, y)
  {
    x', y' := x, y;
    while true
      invariant Within(x', |w|) && Within(y', |w|) && x' * y' == {} && x' + y' == x + y
      invariant CutValue(w, x', y') >= CutValue(w, x, y)
      decreases TotalAbsWeight(w) - CutValue(w, x', y')
    {
      CutBound(w, x', y');
      var bestVertex, bestValue := 0, 0;
      for v := 0 to |w|
        invariant bestValue >= 0 && (bestVertex == 0 <==> bestValue == 0)
        invariant bestVertex != 0 ==> bestVertex in x' && Gain(w, bestVertex, x', y') == bestValue
        invariant forall t :: 0 <= t < v && t in x' ==> Gain(w, t, x', y') <= bestValue
      {
        if v in x' {
          var d := Delta(v, x', y', w);
          if bestValue < d {
            bestValue, bestVertex := d, v;
          }
        }
      }
      for v := 0 to |w|
        invariant bestValue >= 0 && (bestVertex == 0 <==> bestValue == 0)
        invariant bestVertex != 0 ==>
          (bestVertex in x' && Gain(w, bestVertex, x', y') == bestValue) ||
          (bestVertex in y' && Gain(w, bestVertex, y', x') == bestValue)
        invariant forall t :: t in x' ==> Gain(w, t, x', y') <= bestValue
        invariant forall t :: 0 <= t < v && t in y' ==> Gain(w, t, y', x') <= bestValue
      {
        if v in y' {
          var d := Delta(v, y', x', w);
          if bestValue < d {
            bestValue, bestVertex := d, v;
          }
        }
      }
      if bestVertex == 0 {
        break;
      }
      if bestVertex in x' {
        NotInOther(x', y', bestVertex);
        MoveGain(w, x', y', bestVertex);
        x', y' := x' - {bestVertex}, y' + {bestVertex};
      } else {
        NotInOther(y', x', bestVertex);
        MoveGain(w, y', x', bestVertex);
        CutSymmetric(w, x', y');
        x', y' := x' + {bestVertex}, y' - {bestVertex};
        CutSymmetric(w, x', y');
      }
      CutBound(w, x', y');
    }
  }
}
