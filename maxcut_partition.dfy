/**
  The second version of the max-cut heuristics: edges carry their weight,
  a cut is a partition vector indexed by vertex (1 for x, 0 for y, -1 for a
  vertex not yet placed) and the sides x and y are vectors of vertex ids.
  The weight matrix is the same square matrix as in MaxCutSets, whose sums,
  cut value and move gain this module reuses.
 */
module MaxCutPartition {
  import opened MaxCutSets

  /** The label of a vertex on side x. */
  const InX: int := 1
  /** The label of a vertex on side y. */
  const InY: int := 0
  /** The label of a vertex on neither side. */
  const Unplaced: int := -1

  /** An undirected edge with its weight. */
  datatype Edge = Edge(u: int, v: int, w: int)
  {
    /** Edges are ordered by weight alone. */
    predicate Less(other: Edge)
    {
      w < other.w
    }

    /** Two edges are equal when they join the same two endpoints, in either order, whatever their weights. */
    predicate Same(other: Edge)
    {
      (u == other.u && v == other.v) || (u == other.v && v == other.u)
    }
  }

  /** `Less` is a strict weak order: irreflexive, transitive, and edges of equal weight are incomparable. */
  lemma LessIsStrictWeakOrder(a: Edge, b: Edge, c: Edge)
    ensures !a.Less(a)
    ensures a.Less(b) && b.Less(c) ==> a.Less(c)
    ensures a.Less(b) ==> !b.Less(a)
    ensures !a.Less(b) && !b.Less(a) <==> a.w == b.w
  {
  }

  /** `Same` is an equivalence that ignores direction and weight. */
  lemma SameIsEquivalence(a: Edge, b: Edge, c: Edge)
    ensures a.Same(a)
    ensures a.Same(b) ==> b.Same(a)
    ensures a.Same(b) && b.Same(c) ==> a.Same(c)
    ensures a.Same(Edge(a.v, a.u, b.w))
  {
  }

  // ---------------------------------------------------------------------
  // Cuts of an edge list

  /** Every edge joins two indices of a partition vector of length n. */
  predicate EdgesIn(edges: seq<Edge>, n: int)
  {
    forall k :: 0 <= k < |edges| ==> 0 <= edges[k].u < n && 0 <= edges[k].v < n
  }

  /** What one edge adds to the cut: its weight when its endpoints carry different labels. */
  function Crossing(p: seq<int>, e: Edge): int
    requires 0 <= e.u < |p| && 0 <= e.v < |p|
  {
    if p[e.u] != p[e.v] then e.w else 0
  }

  /** The sum of the weights of the edges whose endpoints carry different labels. */
  function EdgeCut(p: seq<int>, edges: seq<Edge>): int
    requires EdgesIn(edges, |p|)
  {
    if edges == [] then 0 else EdgeCut(p, edges[..|edges| - 1]) + Crossing(p, edges[|edges| - 1])
  }

  lemma {:induction false} EdgeCutAppend(p: seq<int>, a: seq<Edge>, b: seq<Edge>)
    requires EdgesIn(a, |p|) && EdgesIn(b, |p|)
    ensures EdgesIn(a + b, |p|)
    ensures EdgeCut(p, a + b) == EdgeCut(p, a) + EdgeCut(p, b)
    decreases |b|
  {
    if b == [] {
      assert a + b == a;
    } else {
      assert (a + b)[..|a + b| - 1] == a + b[..|b| - 1];
      EdgeCutAppend(p, a, b[..|b| - 1]);
    }
  }

  /** Taking edge k out of the list takes its crossing weight off the cut. */
  lemma EdgeCutRemove(p: seq<int>, b: seq<Edge>, k: int)
    requires EdgesIn(b, |p|) && 0 <= k < |b|
    ensures EdgesIn(b[..k] + b[k + 1..], |p|)
    ensures EdgeCut(p, b) == EdgeCut(p, b[..k] + b[k + 1..]) + Crossing(p, b[k])
  {
    var e := b[k];
    CutAt(b, k);
    assert EdgesIn(b[..k], |p|) && EdgesIn(b[k + 1..], |p|);
    EdgeCutAppend(p, b[..k], [e]);
    EdgeCutAppend(p, b[..k] + [e], b[k + 1..]);
    EdgeCutAppend(p, b[..k], b[k + 1..]);
    assert EdgeCut(p, [e]) == Crossing(p, e) by {
      assert [e][..0] == [];
    }
  }

  /** A sequence is its part before k, its element k and its part after k. */
  lemma CutAt(s: seq<Edge>, k: int)
    requires 0 <= k < |s|
    ensures s == s[..k] + [s[k]] + s[k + 1..]
  {
    assert s[k..] == [s[k]] + s[k + 1..];
  }

  /** A rearrangement of an edge list stays on the same vertices. */
  lemma EdgesInPermutation(a: seq<Edge>, b: seq<Edge>, n: int)
    requires EdgesIn(a, n) && multiset(a) == multiset(b)
    ensures EdgesIn(b, n)
  {
    forall k | 0 <= k < |b|
      ensures 0 <= b[k].u < n && 0 <= b[k].v < n
    {
      assert b[k] in multiset(a);
      var i :| 0 <= i < |a| && a[i] == b[k];
    }
  }

  /** Taking the last edge of a and an equal edge of a rearrangement b leaves rearrangements of each other. */
  lemma RemoveMatching(a: seq<Edge>, b: seq<Edge>, k: int)
    requires multiset(a) == multiset(b) && 0 <= k < |b| && a != [] && a[|a| - 1] == b[k]
    ensures multiset(a[..|a| - 1]) == multiset(b[..k] + b[k + 1..])
  {
    var e := b[k];
    assert a == a[..|a| - 1] + [e];
    CutAt(b, k);
    assert multiset(a[..|a| - 1]) == multiset(a) - multiset{e};
    assert multiset(b[..k] + b[k + 1..]) == multiset(b) - multiset{e};
  }

  /**
    The cut of an edge list does not depend on the order of the edges, so
    sorting the edges by weight leaves every cut weight unchanged.
   */
  lemma {:induction false} EdgeCutPermutation(p: seq<int>, a: seq<Edge>, b: seq<Edge>)
    requires EdgesIn(a, |p|) && multiset(a) == multiset(b)
    ensures EdgesIn(b, |p|)
    ensures EdgeCut(p, a) == EdgeCut(p, b)
    decreases |a|
  {
    EdgesInPermutation(a, b, |p|);
    if a != [] {
      var e := a[|a| - 1];
      var a' := a[..|a| - 1];
      assert e in multiset(b);
      var k :| 0 <= k < |b| && b[k] == e;
      var b' := b[..k] + b[k + 1..];
      RemoveMatching(a, b, k);
      EdgeCutPermutation(p, a', b');
      EdgeCutRemove(p, b, k);
    }
  }

  /** The sum of the crossing edges' weights for the partition vector `partition`. */
  method CutWeight(partition: seq<int>, edges: seq<Edge>) returns (r: int)
    requires EdgesIn(edges, |partition|)
    ensures r == EdgeCut(partition, edges)
  {
    r := 0;
    for k := 0 to |edges|
      invariant r == EdgeCut(partition, edges[..k])
    {
      assert edges[..k + 1][..k] == edges[..k];
      var e := edges[k];
      if partition[e.u] != partition[e.v] {
        r := r + e.w;
      }
    }
    assert edges[..|edges|] == edges;
  }

  /** The labels of the sides x and y on n vertices: y wins over x, and other vertices are unplaced. */
  function SideLabels(x: seq<int>, y: seq<int>, n: nat): (p: seq<int>)
    ensures |p| == n
    ensures forall i :: 0 <= i < n ==> p[i] == if i in y then InY else if i in x then InX else Unplaced
  {
    seq(n, i => if i in y then InY else if i in x then InX else Unplaced)
  }

  /** Every id of xs is an index below n. */
  predicate IdsIn(xs: seq<int>, n: int)
  {
    forall k :: 0 <= k < |xs| ==> 0 <= xs[k] < n
  }

  /** Writes the labels of the sides x and y into a fresh vector of length n, as the program does. */
  method LabelSides(x: seq<int>, y: seq<int>, n: nat) returns (partition: array<int>)
    requires IdsIn(x, n) && IdsIn(y, n)
    ensures fresh(partition)
    ensures partition[..] == SideLabels(x, y, n)
  {
    partition := new int[n](i => Unplaced);
    for k := 0 to |x|
      invariant partition.Length == n
      invariant forall i :: 0 <= i < n ==> partition[i] == if i in x[..k] then InX else Unplaced
    {
      assert x[..k + 1] == x[..k] + [x[k]];
      partition[x[k]] := InX;
    }
    assert x[..|x|] == x;
    for k := 0 to |y|
      invariant partition.Length == n
      invariant forall i :: 0 <= i < n ==> partition[i] == if i in y[..k] then InY else if i in x then InX else Unplaced
    {
      assert y[..k + 1] == y[..k] + [y[k]];
      partition[y[k]] := InY;
    }
    assert y[..|y|] == y;
  }

  /**
    The cut weight of the sides x and y: they are written into a vector of
    length |x| + |y| + 1 (so every id and every edge endpoint must lie
    below that length) and the crossing edges are summed.
   */
  method CutWeightOfSides(x: seq<int>, y: seq<int>, edges: seq<Edge>) returns (r: int)
    requires IdsIn(x, |x| + |y| + 1) && IdsIn(y, |x| + |y| + 1) && EdgesIn(edges, |x| + |y| + 1)
    ensures r == EdgeCut(SideLabels(x, y, |x| + |y| + 1), edges)
  {
    var partition := LabelSides(x, y, |x| + |y| + 1);
    r := CutWeight(partition[..], edges);
  }

  // ---------------------------------------------------------------------
  // Vertex contributions

  /** The vertices 1..|p|-1 labelled `tag`. */
  function Side(p: seq<int>, tag: int): set<int>
  {
    set i | 1 <= i < |p| && p[i] == tag
  }

  /** The vertices 1..|p|-1 not labelled `tag`. */
  function Others(p: seq<int>, tag: int): set<int>
  {
    set i | 1 <= i < |p| && p[i] != tag
  }

  /** The sum of weight[i][z] over the vertices i >= 1 labelled `tag`. */
  method IfIncludedLabel(z: int, tag: int, partition: seq<int>, w: seq<seq<int>>) returns (r: int)
    requires Square(w) && 0 <= z < |w| && |partition| <= |w|
    ensures r == SumIn(Column(w, z), Side(partition, tag), |partition|)
  {
    r := 0;
    if |partition| == 0 {
      return;
    }
    for i := 1 to |partition|
      invariant r == SumIn(Column(w, z), Side(partition, tag), i)
    {
      if partition[i] == tag {
        r := r + w[i][z];
      }
    }
  }

  /** The sum of weight[v][z] over the entries v of xs, repeats included. */
  function ListWeightTo(w: seq<seq<int>>, z: int, xs: seq<int>): int
    requires Square(w) && 0 <= z < |w| && IdsIn(xs, |w|)
  {
    if xs == [] then 0 else ListWeightTo(w, z, xs[..|xs| - 1]) + w[xs[|xs| - 1]][z]
  }

  /** The entries of a list as a set. */
  function Elems(xs: seq<int>): set<int>
  {
    if xs == [] then {} else Elems(xs[..|xs| - 1]) + {xs[|xs| - 1]}
  }

  lemma ElemsAppend(xs: seq<int>, t: int)
    ensures Elems(xs + [t]) == Elems(xs) + {t}
  {
    assert (xs + [t])[..|xs|] == xs;
  }

  /** A value different from every entry of a list is not among its entries. */
  lemma {:induction false} ElemsAvoid(xs: seq<int>, t: int)
    requires forall k :: 0 <= k < |xs| ==> xs[k] != t
    ensures t !in Elems(xs)
    decreases |xs|
  {
    if xs != [] {
      var init := xs[..|xs| - 1];
      assert forall k :: 0 <= k < |init| ==> init[k] == xs[k];
      ElemsAvoid(init, t);
    }
  }

  /** Without repeats, the weight to the entries of a list is the weight to the set of its entries. */
  lemma {:induction false} ListWeightToSet(w: seq<seq<int>>, z: int, xs: seq<int>)
    requires Square(w) && 0 <= z < |w| && IdsIn(xs, |w|)
    requires forall a, b :: 0 <= a < b < |xs| ==> xs[a] != xs[b]
    ensures ListWeightTo(w, z, xs) == WeightTo(w, z, Elems(xs))
    decreases |xs|
  {
    if xs == [] {
      SumInEmpty(Column(w, z), |w|);
    } else {
      var init := xs[..|xs| - 1];
      var t := xs[|xs| - 1];
      assert forall k :: 0 <= k < |init| ==> init[k] == xs[k];
      ListWeightToSet(w, z, init);
      ElemsAvoid(init, t);
      SumInInsert(Column(w, z), Elems(init), t, |w|);
    }
  }

  lemma {:induction false} SumInEmpty(row: seq<int>, k: nat)
    requires k <= |row|
    ensures SumIn(row, {}, k) == 0
  {
    if k > 0 {
      SumInEmpty(row, k - 1);
    }
  }

  /** The sum of weight[v][z] over the entries v of xs. */
  method IfIncluded(z: int, xs: seq<int>, w: seq<seq<int>>) returns (r: int)
    requires Square(w) && 0 <= z < |w| && IdsIn(xs, |w|)
    ensures r == ListWeightTo(w, z, xs)
  {
    r := 0;
    for k := 0 to |xs|
      invariant r == ListWeightTo(w, z, xs[..k])
    {
      assert xs[..k + 1][..k] == xs[..k];
      r := r + w[xs[k]][z];
    }
    assert xs[..|xs|] == xs;
  }

  /**
    The program's delta of vertex u: over the vertices v >= 1, plus
    weight[v][u] when v has u's label and minus it otherwise.
   */
  function LabelDelta(w: seq<seq<int>>, p: seq<int>, u: int): int
    requires Square(w) && |p| == |w| && 0 <= u < |p|
  {
    WeightTo(w, u, Side(p, p[u])) - WeightTo(w, u, Others(p, p[u]))
  }

  method Delta(u: int, partition: array<int>, w: seq<seq<int>>) returns (r: int)
    requires Square(w) && partition.Length == |w| && 0 <= u < |w|
    ensures r == LabelDelta(w, partition[..], u)
  {
    var p := partition[..];
    var col := Column(w, u);
    r := 0;
    if partition.Length == 0 {
      return;
    }
    for v := 1 to partition.Length
      invariant r == SumIn(col, Side(p, p[u]), v) - SumIn(col, Others(p, p[u]), v)
    {
      if partition[v] == partition[u] {
        r := r + w[v][u];
      } else {
        r := r - w[v][u];
      }
    }
  }

  // ---------------------------------------------------------------------
  // The greedy construction

  /**
    The sides after the greedy construction has looked at vertices
    1..z-1: x starts [u], y starts [v], and each other vertex t is appended
    to x when its weight to the entries of y beats its weight to the entries
    of x, and to y otherwise.
   */
  function GreedyLists(w: seq<seq<int>>, u: int, v: int, z: nat): (r: (seq<int>, seq<int>))
    requires Square(w) && 0 <= u < |w| && 0 <= v < |w| && z <= |w|
    ensures IdsIn(r.0, |w|) && IdsIn(r.1, |w|)
  {
    if z <= 1 then ([u], [v]) else GreedyStep(w, u, v, z - 1, GreedyLists(w, u, v, z - 1))
  }

  /** Vertex t placed after the lists `prev`: skipped when it is a seed, else appended to the side it is lighter to. */
  function GreedyStep(w: seq<seq<int>>, u: int, v: int, t: int, prev: (seq<int>, seq<int>)): (r: (seq<int>, seq<int>))
    requires Square(w) && 0 <= t < |w| && IdsIn(prev.0, |w|) && IdsIn(prev.1, |w|)
    ensures IdsIn(r.0, |w|) && IdsIn(r.1, |w|)
  {
    if t == u || t == v then prev
    else if ListWeightTo(w, t, prev.1) > ListWeightTo(w, t, prev.0) then (prev.0 + [t], prev.1)
    else (prev.0, prev.1 + [t])
  }

  /** The entries of xs after the first are increasing. */
  predicate IncreasingTail(xs: seq<int>)
  {
    forall a, b :: 1 <= a < b < |xs| ==> xs[a] < xs[b]
  }

  /** xs starts with seed and continues in increasing order with vertices 1..z-1 other than seed and other. */
  predicate SeededList(xs: seq<int>, seed: int, other: int, z: int)
  {
    && |xs| >= 1 && xs[0] == seed && IncreasingTail(xs)
    && forall k :: 1 <= k < |xs| ==> 1 <= xs[k] < z && xs[k] != seed && xs[k] != other
  }

  lemma SeededListGrow(xs: seq<int>, seed: int, other: int, t: int)
    requires SeededList(xs, seed, other, t)
    ensures SeededList(xs, seed, other, t + 1)
    ensures 1 <= t && t != seed && t != other ==> SeededList(xs + [t], seed, other, t + 1)
  {
  }

  /** The greedy lists start with their seeds and continue in increasing order with the other vertices placed so far. */
  lemma {:induction false} GreedyListsShape(w: seq<seq<int>>, u: int, v: int, z: nat)
    requires Square(w) && 0 <= u < |w| && 0 <= v < |w| && 1 <= z <= |w|
    ensures SeededList(GreedyLists(w, u, v, z).0, u, v, z)
    ensures SeededList(GreedyLists(w, u, v, z).1, v, u, z)
    decreases z
  {
    if z == 1 {
      assert GreedyLists(w, u, v, z) == ([u], [v]);
    } else {
      GreedyListsShape(w, u, v, z - 1);
      GreedyStepShape(w, u, v, z, GreedyLists(w, u, v, z - 1));
    }
  }

  /** Placing vertex z - 1 keeps both lists seeded and increasing. */
  lemma GreedyStepShape(w: seq<seq<int>>, u: int, v: int, z: int, prev: (seq<int>, seq<int>))
    requires Square(w) && 2 <= z <= |w| && IdsIn(prev.0, |w|) && IdsIn(prev.1, |w|)
    requires SeededList(prev.0, u, v, z - 1) && SeededList(prev.1, v, u, z - 1)
    ensures SeededList(GreedyStep(w, u, v, z - 1, prev).0, u, v, z)
    ensures SeededList(GreedyStep(w, u, v, z - 1, prev).1, v, u, z)
  {
    SeededListGrow(prev.0, u, v, z - 1);
    SeededListGrow(prev.1, v, u, z - 1);
  }

  /** Placing vertex z - 1 as a greedy step does is placing it as the set-based rule does. */
  lemma GreedyStepAgrees(w: seq<seq<int>>, u: int, v: int, z: int, prev: (seq<int>, seq<int>))
    requires Square(w) && 0 <= u < |w| && 0 <= v < |w| && 2 <= z <= |w|
    requires IdsIn(prev.0, |w|) && IdsIn(prev.1, |w|)
    requires SeededList(prev.0, u, v, z - 1) && SeededList(prev.1, v, u, z - 1)
    requires GreedyResult(w, z - 1, u, v, Elems(prev.0), Elems(prev.1))
    ensures var r := GreedyStep(w, u, v, z - 1, prev);
      GreedyResult(w, z, u, v, Elems(r.0), Elems(r.1))
  {
    var t := z - 1;
    var x, y := Elems(prev.0), Elems(prev.1);
    GreedyResultStep(w, u, v, t, x, y);
    if t != u && t != v {
      NoRepeats(prev.0, u, v, t);
      NoRepeats(prev.1, v, u, t);
      ListWeightToSet(w, t, prev.0);
      ListWeightToSet(w, t, prev.1);
      if ListWeightTo(w, t, prev.1) > ListWeightTo(w, t, prev.0) {
        ElemsAppend(prev.0, t);
      } else {
        ElemsAppend(prev.1, t);
      }
    }
  }

  /**
    With two different seeds, the greedy lists hold the sets the set-based
    construction of MaxCutSets promises: each other vertex on exactly one
    side, chosen by comparing its weights to the vertices already placed.
   */
  lemma {:induction false} GreedyListsAgree(w: seq<seq<int>>, u: int, v: int, z: nat)
    requires Square(w) && 0 <= u < |w| && 0 <= v < |w| && u != v && 1 <= z <= |w|
    ensures var r := GreedyLists(w, u, v, z);
      GreedyResult(w, z, u, v, Elems(r.0), Elems(r.1))
    decreases z, 1
  {
    if z == 1 {
      GreedySeeds(w, u, v);
    } else {
      GreedyListsAgreeNext(w, u, v, z);
    }
  }

  lemma {:induction false} GreedyListsAgreeNext(w: seq<seq<int>>, u: int, v: int, z: nat)
    requires Square(w) && 0 <= u < |w| && 0 <= v < |w| && u != v && 2 <= z <= |w|
    ensures var r := GreedyLists(w, u, v, z);
      GreedyResult(w, z, u, v, Elems(r.0), Elems(r.1))
    decreases z, 0
  {
    GreedyListsAgree(w, u, v, z - 1);
    GreedyListsShape(w, u, v, z - 1);
    GreedyStepAgrees(w, u, v, z, GreedyLists(w, u, v, z - 1));
  }

  /** The seeds alone satisfy the greedy promise for no placed vertex. */
  lemma GreedySeeds(w: seq<seq<int>>, u: int, v: int)
    requires Square(w) && 0 <= u < |w| && 0 <= v < |w| && 1 <= |w|
    ensures var r := GreedyLists(w, u, v, 1);
      GreedyResult(w, 1, u, v, Elems(r.0), Elems(r.1))
  {
    assert GreedyLists(w, u, v, 1) == ([u], [v]);
    ElemsSingle(u);
    ElemsSingle(v);
  }

  lemma ElemsSingle(t: int)
    ensures Elems([t]) == {t}
  {
    assert [t][..0] == [];
  }

  /** A list that starts with a seed and continues increasing with other vertices has no repeats. */
  lemma NoRepeats(xs: seq<int>, seed: int, other: int, z: int)
    requires SeededList(xs, seed, other, z)
    ensures forall a, b :: 0 <= a < b < |xs| ==> xs[a] != xs[b]
  {
  }

  /**
    Seeds the sides with the endpoints of the first edge of the list and
    places the other vertices 1..|w|-1 greedily. The program sorts the edge
    list by increasing weight before calling this, so the seed is an edge of
    least weight.
   */
  method GreedyMaxCut(edges: seq<Edge>, w: seq<seq<int>>) returns (x: seq<int>, y: seq<int>)
    requires Square(w) && |edges| > 0 && 0 <= edges[0].u < |w| && 0 <= edges[0].v < |w|
    ensures (x, y) == GreedyLists(w, edges[0].u, edges[0].v, |w|)
  {
    var seed := edges[0];
    x, y := [seed.u], [seed.v];
    if |w| == 0 {
      return;
    }
    for z := 1 to |w|
      invariant (x, y) == GreedyLists(w, seed.u, seed.v, z)
    {
      if z != seed.u && z != seed.v {
        var wx := IfIncluded(z, y, w);
        var wy := IfIncluded(z, x, w);
        if wx > wy {
          x := x + [z];
        } else {
          y := y + [z];
        }
      }
    }
  }

  // ---------------------------------------------------------------------
  // Local search

  /** Every vertex 1..|p|-1 is labelled x or y. */
  predicate Binary(p: seq<int>)
  {
    forall i :: 1 <= i < |p| ==> p[i] == InX || p[i] == InY
  }

  /** On binary labels with an undirected weight matrix, the program's delta is the move gain of MaxCutSets. */
  lemma LabelDeltaIsGain(w: seq<seq<int>>, p: seq<int>, u: int)
    requires Square(w) && Symmetric(w) && |p| == |w| && Binary(p) && 1 <= u < |p|
    ensures p[u] == InX ==> LabelDelta(w, p, u) == Gain(w, u, Side(p, InX), Side(p, InY))
    ensures p[u] == InY ==> LabelDelta(w, p, u) == Gain(w, u, Side(p, InY), Side(p, InX))
  {
    WeightToFrom(w, u, Side(p, p[u]));
    WeightToFrom(w, u, Others(p, p[u]));
    assert Others(p, InX) == Side(p, InY);
    assert Others(p, InY) == Side(p, InX);
  }

  /** The cut weight of a binary partition vector: the weight between the vertices labelled x and those labelled y. */
  function LabelCut(w: seq<seq<int>>, p: seq<int>): int
    requires Square(w)
  {
    CutValue(w, Side(p, InX), Side(p, InY))
  }

  /** Flipping one binary label raises the cut weight by that vertex's delta. */
  lemma FlipGain(w: seq<seq<int>>, p: seq<int>, u: int)
    requires Square(w) && Symmetric(w) && ZeroDiagonal(w) && |p| == |w| && Binary(p) && 1 <= u < |p|
    ensures Binary(p[u := if p[u] != 0 then 0 else 1])
    ensures LabelCut(w, p[u := if p[u] != 0 then 0 else 1]) == LabelCut(w, p) + LabelDelta(w, p, u)
  {
    var q := p[u := if p[u] != 0 then 0 else 1];
    var x, y := Side(p, InX), Side(p, InY);
    LabelDeltaIsGain(w, p, u);
    if p[u] == InX {
      assert Side(q, InX) == x - {u};
      assert Side(q, InY) == y + {u};
      MoveGain(w, x, y, u);
    } else {
      assert Side(q, InX) == x + {u};
      assert Side(q, InY) == y - {u};
      MoveGain(w, y, x, u);
    }
  }

  /** The labels of a final result: 1 for the entries of xs, 0 for every other vertex. */
  function ResultLabels(xs: seq<int>, n: nat): (p: seq<int>)
    ensures |p| == n
  {
    seq(n, i => if i in xs then InX else InY)
  }

  /** Listing the vertices labelled x in xs keeps the cut and every delta of a binary partition vector. */
  lemma ResultLabelsMatch(w: seq<seq<int>>, p: seq<int>, xs: seq<int>)
    requires Square(w) && |p| == |w| && Binary(p)
    requires forall v :: 1 <= v < |p| ==> (v in xs <==> p[v] == InX)
    ensures LabelCut(w, ResultLabels(xs, |w|)) == LabelCut(w, p)
    ensures forall u :: 1 <= u < |p| ==> LabelDelta(w, ResultLabels(xs, |w|), u) == LabelDelta(w, p, u)
  {
    var q := ResultLabels(xs, |w|);
    assert Side(q, InX) == Side(p, InX);
    assert Side(q, InY) == Side(p, InY);
    assert Others(q, InX) == Others(p, InX);
    assert Others(q, InY) == Others(p, InY);
  }

  /**
    Hill climbing on the partition vector: repeatedly flips the first
    vertex whose delta is strictly largest and positive, until no delta is
    positive, then lists the vertices labelled x in x and all others in y,
    each in increasing order. Every vertex 1..|w|-1 must start on a side;
    on an undirected graph without self-weights each flip raises the cut
    weight by its delta, which bounds the number of flips.
   */
  method LocalSearch(x: seq<int>, y: seq<int>, w: seq<seq<int>>) returns (x': seq<int>, y': seq<int>)
    requires Square(w) && Symmetric(w) && ZeroDiagonal(w)
    requires IdsIn(x, |w|) && IdsIn(y, |w|)
    requires forall v :: 1 <= v < |w| ==> v in x || v in y
    ensures forall v :: v in x' ==> 1 <= v < |w|
    ensures forall v :: v in y' ==> 1 <= v < |w|
    ensures forall v :: 1 <= v < |w| ==> (v in x' <==> v !in y')
    ensures forall a, b :: 0 <= a < b < |x'| ==> x'[a] < x'[b]
    ensures forall a, b :: 0 <= a < b < |y'| ==> y'[a] < y'[b]
    ensures forall v :: 1 <= v < |w| ==> LabelDelta(w, ResultLabels(x', |w|), v) <= 0
    ensures LabelCut(w, ResultLabels(x', |w|)) >= LabelCut(w, SideLabels(x, y, |w|))
  {
    var n := |w|;
    var partition := LabelSides(x, y, n);
    ghost var start := partition[..];
    while true
      invariant partition.Length == n && Binary(partition[..])
      invariant LabelCut(w, partition[..]) >= LabelCut(w, start)
      decreases TotalAbsWeight(w) - LabelCut(w, partition[..])
    {
      CutBound(w, Side(partition[..], InX), Side(partition[..], InY));
      var bestVertex, bestValue := BestFlip(partition, w);
      if bestVertex == 0 {
        break;
      }
      FlipGain(w, partition[..], bestVertex);
      partition[bestVertex] := if partition[bestVertex] != 0 then 0 else 1;
      CutBound(w, Side(partition[..], InX), Side(partition[..], InY));
    }
    x', y' := ListsFromLabels(partition);
    ResultLabelsMatch(w, partition[..], x');
  }

  /**
    One scan of the hill climbing: the first vertex 1..n-1 with the largest
    delta, if that delta is positive, and vertex 0 with value 0 otherwise.
   */
  method BestFlip(partition: array<int>, w: seq<seq<int>>) returns (bestVertex: int, bestValue: int)
    requires Square(w) && partition.Length == |w|
    ensures bestValue >= 0 && (bestVertex == 0 <==> bestValue == 0)
    ensures bestVertex != 0 ==> 1 <= bestVertex < |w| && LabelDelta(w, partition[..], bestVertex) == bestValue
    ensures bestVertex != 0 ==> forall t :: 1 <= t < bestVertex ==> LabelDelta(w, partition[..], t) < bestValue
    ensures forall t :: 1 <= t < |w| ==> LabelDelta(w, partition[..], t) <= bestValue
  {
    bestVertex, bestValue := 0, 0;
    if partition.Length == 0 {
      return;
    }
    for v := 1 to partition.Length
      invariant bestValue >= 0 && (bestVertex == 0 <==> bestValue == 0)
      invariant bestVertex != 0 ==> 1 <= bestVertex < v && LabelDelta(w, partition[..], bestVertex) == bestValue
      invariant bestVertex != 0 ==> forall t :: 1 <= t < bestVertex ==> LabelDelta(w, partition[..], t) < bestValue
      invariant forall t :: 1 <= t < v ==> LabelDelta(w, partition[..], t) <= bestValue
    {
      var d := Delta(v, partition, w);
      if d > bestValue {
        bestValue, bestVertex := d, v;
      }
    }
  }

  /** The vertices 1..n-1 labelled x, in increasing order, and all the others, in increasing order. */
  method ListsFromLabels(partition: array<int>) returns (x: seq<int>, y: seq<int>)
    ensures forall v :: v in x ==> 1 <= v < partition.Length && partition[v] == InX
    ensures forall v :: v in y ==> 1 <= v < partition.Length && partition[v] != InX
    ensures forall v :: 1 <= v < partition.Length ==> v in x || v in y
    ensures forall a, b :: 0 <= a < b < |x| ==> x[a] < x[b]
    ensures forall a, b :: 0 <= a < b < |y| ==> y[a] < y[b]
  {
    x, y := [], [];
    if partition.Length == 0 {
      return;
    }
    for i := 1 to partition.Length
      invariant forall k :: 0 <= k < |x| ==> 1 <= x[k] < i
      invariant forall k :: 0 <= k < |y| ==> 1 <= y[k] < i
      invariant forall v :: v in x ==> 1 <= v < i && partition[v] == InX
      invariant forall v :: v in y ==> 1 <= v < i && partition[v] != InX
      invariant forall v :: 1 <= v < i ==> v in x || v in y
      invariant forall a, b :: 0 <= a < b < |x| ==> x[a] < x[b]
      invariant forall a, b :: 0 <= a < b < |y| ==> y[a] < y[b]
    {
      if partition[i] == InX {
        x := x + [i];
      } else {
        y := y + [i];
      }
    }
  }
}
