/**
  The rules of the chain-reaction board as values: cells, the position
  classes and their critical masses, one visit of the cascade and the whole
  cascade, and the row-major scans behind the board's queries. The class in
  ChainBoard keeps its grid in an array and is specified by these functions.
 */
module ChainRules {

  /** The colour an unowned cell carries. */
  const Empty: char := ' '

  /** One square of the grid: how many orbs it holds and who owns it. */
  datatype Cell = Cell(orbCount: int, color: char)

  const EmptyCell: Cell := Cell(0, Empty)

  /** A (row, column) coordinate; coordinates outside the grid do occur. */
  type Pos = (int, int)

  /** A snapshot of a board: its dimensions and its cells, row by row. */
  datatype BoardState = BoardState(rows: nat, cols: nat, cells: seq<seq<Cell>>)

  predicate WellShaped(s: BoardState)
  {
    |s.cells| == s.rows && forall i :: 0 <= i < s.rows ==> |s.cells[i]| == s.cols
  }

  predicate InRange(s: BoardState, p: Pos)
  {
    0 <= p.0 < s.rows && 0 <= p.1 < s.cols
  }

  function At(s: BoardState, p: Pos): Cell
    requires WellShaped(s) && InRange(s, p)
  {
    s.cells[p.0][p.1]
  }

  /** The snapshot with the cell at `p` replaced by `x`. */
  function With(s: BoardState, p: Pos, x: Cell): (r: BoardState)
    requires WellShaped(s) && InRange(s, p)
    ensures WellShaped(r) && r.rows == s.rows && r.cols == s.cols
    ensures At(r, p) == x
    ensures forall q :: InRange(s, q) && q != p ==> At(r, q) == At(s, q)
  {
    BoardState(s.rows, s.cols, s.cells[p.0 := s.cells[p.0][p.1 := x]])
  }

  /** The board a game starts from: every cell empty. */
  function EmptyState(rows: nat, cols: nat): BoardState
  {
    BoardState(rows, cols, seq(rows, i => seq(cols, j => EmptyCell)))
  }

  // ---------------------------------------------------------------------
  // Position classes and critical mass

  predicate IsCorner(rows: int, cols: int, row: int, col: int)
  {
    (row == 0 && col == 0) || (row == 0 && col == cols - 1) ||
    (row == rows - 1 && col == 0) || (row == rows - 1 && col == cols - 1)
  }

  predicate IsEdge(rows: int, cols: int, row: int, col: int)
  {
    (row == 0 || row == rows - 1 || col == 0 || col == cols - 1) && !IsCorner(rows, cols, row, col)
  }

  predicate IsCenter(rows: int, cols: int, row: int, col: int)
  {
    row > 0 && row < rows - 1 && col > 0 && col < cols - 1
  }

  /** The orb count at which the cell at (row, col) explodes. */
  function CriticalMass(rows: int, cols: int, row: int, col: int): int
  {
    if IsCorner(rows, cols, row, col) then 2
    else if IsEdge(rows, cols, row, col) then 3
    else if IsCenter(rows, cols, row, col) then 4
    else 4
  }

  /** The four orthogonal neighbours, in the order the cascade schedules them: up, right, down, left. */
  function Neighbours(p: Pos): seq<Pos>
  {
    [(p.0 - 1, p.1), (p.0, p.1 + 1), (p.0 + 1, p.1), (p.0, p.1 - 1)]
  }

  /** How many positions of `ns` lie on a rows x cols grid. */
  function CountInGrid(rows: int, cols: int, ns: seq<Pos>): (n: nat)
    ensures n <= |ns|
  {
    if ns == [] then 0
    else CountInGrid(rows, cols, ns[1..]) + (if 0 <= ns[0].0 < rows && 0 <= ns[0].1 < cols then 1 else 0)
  }

  /** Every in-range cell is exactly one of corner, edge and centre; the critical mass is 2, 3 or 4 accordingly. */
  lemma PositionClasses(rows: int, cols: int, row: int, col: int)
    requires 0 <= row < rows && 0 <= col < cols
    ensures !(IsCorner(rows, cols, row, col) && IsEdge(rows, cols, row, col))
    ensures !(IsCorner(rows, cols, row, col) && IsCenter(rows, cols, row, col))
    ensures !(IsEdge(rows, cols, row, col) && IsCenter(rows, cols, row, col))
    ensures IsCorner(rows, cols, row, col) || IsEdge(rows, cols, row, col) || IsCenter(rows, cols, row, col)
    ensures CriticalMass(rows, cols, row, col) == 2 <==> IsCorner(rows, cols, row, col)
    ensures CriticalMass(rows, cols, row, col) == 3 <==> IsEdge(rows, cols, row, col)
    ensures CriticalMass(rows, cols, row, col) == 4 <==> IsCenter(rows, cols, row, col)
  {
  }

  /**
    On a grid at least two wide in both directions, the critical mass of a
    cell is the number of its neighbours that lie on the grid: an exploding
    cell sends out exactly as many in-range orbs as it held.
   */
  lemma CriticalMassIsNeighbourCount(rows: int, cols: int, row: int, col: int)
    requires rows >= 2 && cols >= 2
    requires 0 <= row < rows && 0 <= col < cols
    ensures CriticalMass(rows, cols, row, col) == CountInGrid(rows, cols, Neighbours((row, col)))
  {
    var ns := Neighbours((row, col));
    assert ns[1..][1..][1..][1..] == [];
    assert CountInGrid(rows, cols, ns[3..]) == (if 0 <= col - 1 then 1 else 0) by {
      assert ns[3..][1..] == [];
    }
    assert CountInGrid(rows, cols, ns[2..]) == CountInGrid(rows, cols, ns[3..]) + (if row + 1 < rows then 1 else 0) by {
      assert ns[2..][1..] == ns[3..];
    }
    assert CountInGrid(rows, cols, ns[1..]) == CountInGrid(rows, cols, ns[2..]) + (if col + 1 < cols then 1 else 0) by {
      assert ns[1..][1..] == ns[2..];
    }
  }

  // ---------------------------------------------------------------------
  // The orb invariant

  /** An in-range cell holds fewer orbs than its critical mass and is unowned exactly when it holds none. */
  predicate CellOk(s: BoardState, i: int, j: int, x: Cell)
  {
    0 <= x.orbCount < CriticalMass(s.rows, s.cols, i, j) && (x.color == Empty <==> x.orbCount == 0)
  }

  predicate ValidState(s: BoardState)
  {
    WellShaped(s) &&
    forall i, j :: 0 <= i < s.rows && 0 <= j < s.cols ==> CellOk(s, i, j, s.cells[i][j])
  }

  lemma EmptyStateValid(rows: nat, cols: nat)
    ensures ValidState(EmptyState(rows, cols))
  {
  }

  // ---------------------------------------------------------------------
  // The explosion queue

  predicate Distinct(q: seq<Pos>)
  {
    forall a, b :: 0 <= a < b < |q| ==> q[a] != q[b]
  }

  /** Appends `p` unless it is already waiting. */
  function Enqueue(q: seq<Pos>, p: Pos): seq<Pos>
  {
    if p in q then q else q + [p]
  }

  /** Offers each of `ns` to the queue in order. */
  function EnqueueAll(q: seq<Pos>, ns: seq<Pos>): seq<Pos>
    decreases |ns|
  {
    if ns == [] then q else Enqueue(EnqueueAll(q, ns[..|ns| - 1]), ns[|ns| - 1])
  }

  /** Offering positions keeps the queue free of repeats and adds exactly the offered positions. */
  lemma {:induction false} EnqueueAllDistinct(q: seq<Pos>, ns: seq<Pos>)
    requires Distinct(q)
    ensures Distinct(EnqueueAll(q, ns))
    ensures forall p :: p in EnqueueAll(q, ns) <==> p in q || p in ns
    ensures |q| <= |EnqueueAll(q, ns)| && EnqueueAll(q, ns)[..|q|] == q
    decreases |ns|
  {
    if ns != [] {
      var init := ns[..|ns| - 1];
      EnqueueAllDistinct(q, init);
      var r := EnqueueAll(q, init);
      forall p
        ensures p in ns <==> p in init || p == ns[|ns| - 1]
      {
        assert ns == init + [ns[|ns| - 1]];
      }
      if ns[|ns| - 1] !in r {
        assert (r + [ns[|ns| - 1]])[..|q|] == r[..|q|];
      }
    }
  }

  // ---------------------------------------------------------------------
  // The cascade

  /** Whether a delivery of `color` changes the cell: it is empty, already `color`'s, or the delivery is forced. */
  predicate Accepts(x: Cell, color: char, force: bool)
  {
    x.color == Empty || x.color == color || force
  }

  /**
    One turn of the cascade loop: pop the head of the queue; an off-grid
    coordinate is dropped; otherwise the cell takes one orb of `color` if it
    accepts it, and explodes (emptied, its four neighbours offered to the
    queue) once it holds at least its critical mass.
   */
  function Visit(s: BoardState, q: seq<Pos>, color: char, force: bool): (r: (BoardState, seq<Pos>))
    requires WellShaped(s) && q != []
    ensures WellShaped(r.0) && r.0.rows == s.rows && r.0.cols == s.cols
  {
    var p := q[0];
    var rest := q[1..];
    if !InRange(s, p) then (s, rest)
    else
      var x := At(s, p);
      var s1 := if Accepts(x, color, force) then With(s, p, Cell(x.orbCount + 1, color)) else s;
      if At(s1, p).orbCount >= CriticalMass(s.rows, s.cols, p.0, p.1) then
        (With(s1, p, EmptyCell), EnqueueAll(rest, Neighbours(p)))
      else
        (s1, rest)
  }

  /**
    The cascade run to completion or for at most `fuel` visits, whichever
    comes first; the flag says whether the queue ran empty.
   */
  function Cascade(s: BoardState, q: seq<Pos>, color: char, force: bool, fuel: nat): (r: (BoardState, bool))
    requires WellShaped(s)
    ensures WellShaped(r.0) && r.0.rows == s.rows && r.0.cols == s.cols
    decreases fuel
  {
    if q == [] then (s, true)
    else if fuel == 0 then (s, false)
    else
      var v := Visit(s, q, color, force);
      Cascade(v.0, v.1, color, force, fuel - 1)
  }

  /** The board after an unforced placement of one orb of `color` at `p`. */
  function Place(s: BoardState, p: Pos, color: char, fuel: nat): (r: BoardState)
    requires WellShaped(s)
    ensures WellShaped(r) && r.rows == s.rows && r.cols == s.cols
  {
    Cascade(s, [p], color, false, fuel).0
  }

  /**
    What one visit does. An off-grid coordinate changes nothing. On a board
    that keeps the orb invariant, the visited cell either keeps its count and
    colour (owned by another colour, unforced), or gains one orb and takes
    the colour, or explodes to an empty cell and offers its neighbours; all
    other cells are unchanged, and the queue loses its head.
   */
  lemma VisitEffect(s: BoardState, q: seq<Pos>, color: char, force: bool)
    requires ValidState(s) && q != []
    ensures var r := Visit(s, q, color, force);
      var p := q[0];
      && (!InRange(s, p) ==> r == (s, q[1..]))
      && (InRange(s, p) ==>
            var x := At(s, p);
            && (forall o :: InRange(s, o) && o != p ==> At(r.0, o) == At(s, o))
            && (!Accepts(x, color, force) ==> At(r.0, p) == x && r.1 == q[1..])
            && (Accepts(x, color, force) && x.orbCount + 1 < CriticalMass(s.rows, s.cols, p.0, p.1) ==>
                  At(r.0, p) == Cell(x.orbCount + 1, color) && r.1 == q[1..])
            && (Accepts(x, color, force) && x.orbCount + 1 >= CriticalMass(s.rows, s.cols, p.0, p.1) ==>
                  At(r.0, p) == EmptyCell && r.1 == EnqueueAll(q[1..], Neighbours(p))))
  {
    var p := q[0];
    if InRange(s, p) {
      assert CellOk(s, p.0, p.1, s.cells[p.0][p.1]);
    }
  }

  /** A visit with a real colour keeps the orb invariant. */
  lemma VisitKeepsValid(s: BoardState, q: seq<Pos>, color: char, force: bool)
    requires ValidState(s) && q != [] && color != Empty
    ensures ValidState(Visit(s, q, color, force).0)
  {
    var p := q[0];
    if InRange(s, p) {
      var r := Visit(s, q, color, force).0;
      assert CellOk(s, p.0, p.1, s.cells[p.0][p.1]);
      forall i, j | 0 <= i < s.rows && 0 <= j < s.cols
        ensures CellOk(r, i, j, r.cells[i][j])
      {
        if (i, j) != p {
          assert At(r, (i, j)) == At(s, (i, j));
        }
      }
    }
  }

  /** A visit keeps the queue free of repeats. */
  lemma VisitKeepsDistinct(s: BoardState, q: seq<Pos>, color: char, force: bool)
    requires WellShaped(s) && q != [] && Distinct(q)
    ensures Distinct(Visit(s, q, color, force).1)
  {
    var rest := q[1..];
    assert Distinct(rest);
    EnqueueAllDistinct(rest, Neighbours(q[0]));
  }

  /** The whole cascade, however long it runs, keeps the orb invariant. */
  lemma {:induction false} CascadeKeepsValid(s: BoardState, q: seq<Pos>, color: char, force: bool, fuel: nat)
    requires ValidState(s) && color != Empty
    ensures ValidState(Cascade(s, q, color, force, fuel).0)
    decreases fuel
  {
    if q != [] && fuel > 0 {
      var v := Visit(s, q, color, force);
      VisitKeepsValid(s, q, color, force);
      CascadeKeepsValid(v.0, v.1, color, force, fuel - 1);
    }
  }

  /** An unforced placement of a real colour keeps the orb invariant. */
  lemma PlaceKeepsValid(s: BoardState, p: Pos, color: char, fuel: nat)
    requires ValidState(s) && color != Empty
    ensures ValidState(Place(s, p, color, fuel))
  {
    CascadeKeepsValid(s, [p], color, false, fuel);
  }

  /** A placement off the grid is dropped: nothing changes and the cascade ends at once. */
  lemma PlaceOffGrid(s: BoardState, p: Pos, color: char, fuel: nat)
    requires WellShaped(s) && !InRange(s, p)
    ensures fuel > 0 ==> Cascade(s, [p], color, false, fuel) == (s, true)
    ensures Place(s, p, color, fuel) == s
  {
  }

  // ---------------------------------------------------------------------
  // Row-major scans

  /** The cells in row-major order. */
  function Flatten(cells: seq<seq<Cell>>): seq<Cell>
    decreases |cells|
  {
    if cells == [] then [] else Flatten(cells[..|cells| - 1]) + cells[|cells| - 1]
  }

  lemma {:induction false} FlattenAppend(a: seq<seq<Cell>>, b: seq<seq<Cell>>)
    ensures Flatten(a + b) == Flatten(a) + Flatten(b)
    decreases |b|
  {
    if b != [] {
      var b' := b[..|b| - 1];
      assert (a + b)[..|a + b| - 1] == a + b';
      FlattenAppend(a, b');
    } else {
      assert a + b == a;
    }
  }

  lemma {:induction false} FlattenLength(cells: seq<seq<Cell>>, cols: nat)
    requires forall i :: 0 <= i < |cells| ==> |cells[i]| == cols
    ensures |Flatten(cells)| == |cells| * cols
    decreases |cells|
  {
    if cells != [] {
      FlattenLength(cells[..|cells| - 1], cols);
      assert |Flatten(cells)| == (|cells| - 1) * cols + cols;
    }
  }

  /** Cell (i, j) of a well-shaped grid sits at index i * cols + j of the row-major order. */
  lemma FlattenIndex(cells: seq<seq<Cell>>, cols: nat, i: int, j: int)
    requires forall k :: 0 <= k < |cells| ==> |cells[k]| == cols
    requires 0 <= i < |cells| && 0 <= j < cols
    ensures 0 <= i * cols + j < |Flatten(cells)|
    ensures Flatten(cells)[i * cols + j] == cells[i][j]
  {
    var front := cells[..i];
    var back := cells[i..];
    assert cells == front + back;
    FlattenAppend(front, back);
    FlattenLength(front, cols);
    FlattenLength(cells, cols);
    assert back == [cells[i]] + back[1..];
    FlattenAppend([cells[i]], back[1..]);
    assert Flatten([cells[i]]) == cells[i] by {
      assert [cells[i]][..0] == [];
    }
    assert Flatten(cells) == Flatten(front) + (cells[i] + Flatten(back[1..]));
    assert i * cols + cols <= |cells| * cols by {
      assert i + 1 <= |cells|;
      MulMonotone(i + 1, |cells|, cols);
    }
  }

  lemma MulMonotone(a: int, b: int, c: nat)
    requires a <= b
    ensures a * c <= b * c
  {
  }

  /** The whole row-major sequence splits at row i, column j into what the scan has seen and what is left. */
  lemma FlattenSplit(cells: seq<seq<Cell>>, i: int, j: int)
    requires 0 <= i < |cells| && 0 <= j <= |cells[i]|
    ensures Flatten(cells) == (Flatten(cells[..i]) + cells[i][..j]) + (cells[i][j..] + Flatten(cells[i + 1..]))
  {
    assert cells == cells[..i] + ([cells[i]] + cells[i + 1..]);
    FlattenAppend(cells[..i], [cells[i]] + cells[i + 1..]);
    FlattenAppend([cells[i]], cells[i + 1..]);
    assert Flatten([cells[i]]) == cells[i] by {
      assert [cells[i]][..0] == [];
    }
    assert cells[i] == cells[i][..j] + cells[i][j..];
  }

  /** The rows before row i + 1 are the rows before row i followed by row i. */
  lemma FlattenNextRow(cells: seq<seq<Cell>>, i: int)
    requires 0 <= i < |cells|
    ensures Flatten(cells[..i + 1]) == Flatten(cells[..i]) + cells[i]
  {
    assert cells[..i + 1][..i] == cells[..i];
  }

  // --- scores

  /** Orbs that a cell adds to `color`'s score. */
  function Contribution(x: Cell, color: char): int
  {
    if x.color == color then x.orbCount else 0
  }

  function SumOwned(xs: seq<Cell>, color: char): int
    decreases |xs|
  {
    if xs == [] then 0 else SumOwned(xs[..|xs| - 1], color) + Contribution(xs[|xs| - 1], color)
  }

  /** The score of `color`: the orbs on the cells it owns. */
  function Score(s: BoardState, color: char): int
  {
    SumOwned(Flatten(s.cells), color)
  }

  lemma {:induction false} SumOwnedAppend(a: seq<Cell>, b: seq<Cell>, color: char)
    ensures SumOwned(a + b, color) == SumOwned(a, color) + SumOwned(b, color)
    decreases |b|
  {
    if b != [] {
      assert (a + b)[..|a + b| - 1] == a + b[..|b| - 1];
      SumOwnedAppend(a, b[..|b| - 1], color);
    } else {
      assert a + b == a;
    }
  }

  lemma SumOwnedSingle(x: Cell, color: char)
    ensures SumOwned([x], color) == Contribution(x, color)
  {
    assert [x][..0] == [];
  }

  /**
    Replacing one cell changes `color`'s score by the difference of the two
    cells' contributions: every other cell contributes as before, and cells
    owned by other colours contribute nothing.
   */
  lemma ScoreWith(s: BoardState, p: Pos, x: Cell, color: char)
    requires WellShaped(s) && InRange(s, p)
    ensures Score(With(s, p, x), color) == Score(s, color) - Contribution(At(s, p), color) + Contribution(x, color)
  {
    var r := With(s, p, x);
    var i, j := p.0, p.1;
    FlattenSplit(s.cells, i, j);
    FlattenSplit(r.cells, i, j);
    assert r.cells[..i] == s.cells[..i];
    assert r.cells[i + 1..] == s.cells[i + 1..];
    assert r.cells[i][..j] == s.cells[i][..j];
    assert r.cells[i][j..] == [x] + s.cells[i][j + 1..];
    assert s.cells[i][j..] == [At(s, p)] + s.cells[i][j + 1..];
    var front := Flatten(s.cells[..i]) + s.cells[i][..j];
    var back := Flatten(s.cells[i + 1..]);
    SumOwnedAppend(front, ([x] + s.cells[i][j + 1..]) + back, color);
    SumOwnedAppend(front, ([At(s, p)] + s.cells[i][j + 1..]) + back, color);
    SumOwnedAppend([x] + s.cells[i][j + 1..], back, color);
    SumOwnedAppend([At(s, p)] + s.cells[i][j + 1..], back, color);
    SumOwnedAppend([x], s.cells[i][j + 1..], color);
    SumOwnedAppend([At(s, p)], s.cells[i][j + 1..], color);
    SumOwnedSingle(x, color);
    SumOwnedSingle(At(s, p), color);
    assert r.cells[i][j..] + Flatten(r.cells[i + 1..]) == ([x] + s.cells[i][j + 1..]) + back;
    assert s.cells[i][j..] + Flatten(s.cells[i + 1..]) == ([At(s, p)] + s.cells[i][j + 1..]) + back;
  }

  /** Every cell of the sequence holds between 0 and 3 orbs. */
  predicate SmallCounts(xs: seq<Cell>)
  {
    forall k :: 0 <= k < |xs| ==> 0 <= xs[k].orbCount <= 3
  }

  lemma {:induction false} SumOwnedPairBound(xs: seq<Cell>, c: char, d: char)
    requires c != d && SmallCounts(xs)
    ensures 0 <= SumOwned(xs, c) && 0 <= SumOwned(xs, d)
    ensures SumOwned(xs, c) + SumOwned(xs, d) <= 3 * |xs|
    decreases |xs|
  {
    if xs != [] {
      SumOwnedPairBound(xs[..|xs| - 1], c, d);
    }
  }

  lemma {:induction false} FlattenSmallCounts(cells: seq<seq<Cell>>)
    requires forall i :: 0 <= i < |cells| ==> SmallCounts(cells[i])
    ensures SmallCounts(Flatten(cells))
    decreases |cells|
  {
    if cells != [] {
      FlattenSmallCounts(cells[..|cells| - 1]);
      var a: seq<Cell>, b: seq<Cell> := Flatten(cells[..|cells| - 1]), cells[|cells| - 1];
      forall k | 0 <= k < |a + b|
        ensures 0 <= (a + b)[k].orbCount <= 3
      {
        if k >= |a| {
          assert (a + b)[k] == b[k - |a|];
        }
      }
    }
  }

  /**
    On a board keeping the orb invariant, two different colours' scores are
    non-negative and together at most three orbs per cell.
   */
  lemma ScorePairBound(s: BoardState, c: char, d: char)
    requires ValidState(s) && c != d
    ensures 0 <= Score(s, c) && 0 <= Score(s, d)
    ensures Score(s, c) + Score(s, d) <= 3 * (s.rows * s.cols)
  {
    forall i | 0 <= i < s.rows
      ensures SmallCounts(s.cells[i])
    {
      forall k | 0 <= k < |s.cells[i]|
        ensures 0 <= s.cells[i][k].orbCount <= 3
      {
        assert CellOk(s, i, k, s.cells[i][k]);
      }
    }
    FlattenSmallCounts(s.cells);
    FlattenLength(s.cells, s.cols);
    SumOwnedPairBound(Flatten(s.cells), c, d);
  }

  // --- valid moves

  /** A cell that `color` may place on: empty or already its own. */
  predicate Playable(x: Cell, color: char)
  {
    x.color == color || x.color == Empty
  }

  /** The playable positions of row i among its first |row| columns, left to right. */
  function RowMoves(row: seq<Cell>, i: int, color: char): seq<Pos>
    decreases |row|
  {
    if row == [] then []
    else RowMoves(row[..|row| - 1], i, color) + (if Playable(row[|row| - 1], color) then [(i, |row| - 1)] else [])
  }

  /** The playable positions of the given rows, in row-major order. */
  function MovesOfRows(cells: seq<seq<Cell>>, color: char): seq<Pos>
    decreases |cells|
  {
    if cells == [] then []
    else MovesOfRows(cells[..|cells| - 1], color) + RowMoves(cells[|cells| - 1], |cells| - 1, color)
  }

  function ValidMoves(s: BoardState, color: char): seq<Pos>
  {
    MovesOfRows(s.cells, color)
  }

  /** p comes strictly before q in row-major order. */
  predicate Before(p: Pos, q: Pos)
  {
    p.0 < q.0 || (p.0 == q.0 && p.1 < q.1)
  }

  predicate RowMajor(ms: seq<Pos>)
  {
    forall a, b :: 0 <= a < b < |ms| ==> Before(ms[a], ms[b])
  }

  lemma {:induction false} RowMovesMeaning(row: seq<Cell>, i: int, color: char)
    ensures forall p :: p in RowMoves(row, i, color) <==> p.0 == i && 0 <= p.1 < |row| && Playable(row[p.1], color)
    ensures RowMajor(RowMoves(row, i, color))
    decreases |row|
  {
    if row != [] {
      var init := row[..|row| - 1];
      RowMovesMeaning(init, i, color);
      var a := RowMoves(init, i, color);
      var b: seq<Pos> := if Playable(row[|row| - 1], color) then [(i, |row| - 1)] else [];
      forall x, y | 0 <= x < y < |a + b|
        ensures Before((a + b)[x], (a + b)[y])
      {
        if y >= |a| {
          assert (a + b)[y] == (i, |row| - 1);
          assert (a + b)[x] in a;
        }
      }
    }
  }

  lemma {:induction false} MovesOfRowsMeaning(cells: seq<seq<Cell>>, color: char)
    ensures forall p :: p in MovesOfRows(cells, color) <==>
      0 <= p.0 < |cells| && 0 <= p.1 < |cells[p.0]| && Playable(cells[p.0][p.1], color)
    ensures RowMajor(MovesOfRows(cells, color))
    decreases |cells|
  {
    if cells != [] {
      var n := |cells| - 1;
      var init := cells[..n];
      MovesOfRowsMeaning(init, color);
      RowMovesMeaning(cells[n], n, color);
      var a := MovesOfRows(init, color);
      var b := RowMoves(cells[n], n, color);
      forall x, y | 0 <= x < y < |a + b|
        ensures Before((a + b)[x], (a + b)[y])
      {
        if x < |a| && y >= |a| {
          assert (a + b)[x] in a;
          assert (a + b)[y] in b;
        } else if x >= |a| {
          assert (a + b)[x] == b[x - |a|];
          assert (a + b)[y] == b[y - |a|];
        }
      }
    }
  }

  /**
    The valid moves of `color` are exactly the in-range positions whose cell
    is empty or owned by `color`, listed in strictly increasing row-major
    order (so none twice).
   */
  lemma ValidMovesMeaning(s: BoardState, color: char)
    requires WellShaped(s)
    ensures forall p :: p in ValidMoves(s, color) <==> InRange(s, p) && Playable(At(s, p), color)
    ensures RowMajor(ValidMoves(s, color))
    ensures Distinct(ValidMoves(s, color))
  {
    MovesOfRowsMeaning(s.cells, color);
    var ms := ValidMoves(s, color);
    forall a, b | 0 <= a < b < |ms|
      ensures ms[a] != ms[b]
    {
      assert Before(ms[a], ms[b]);
    }
  }

  // --- game over

  /** The state of the game-over scan: the first owner seen and the orbs counted since, or a second owner found. */
  datatype Scan = Scanning(first: char, count: int) | Mixed

  function ScanStep(st: Scan, x: Cell): Scan
  {
    match st
    case Mixed => Mixed
    case Scanning(first, count) =>
      if x.color == Empty then st
      else if first == Empty then Scanning(x.color, count)
      else if x.color != first then Mixed
      else Scanning(first, count + x.orbCount)
  }

  function ScanAll(xs: seq<Cell>): Scan
    decreases |xs|
  {
    if xs == [] then Scanning(Empty, 0) else ScanStep(ScanAll(xs[..|xs| - 1]), xs[|xs| - 1])
  }

  function ScanFrom(st: Scan, xs: seq<Cell>): Scan
    decreases |xs|
  {
    if xs == [] then st else ScanStep(ScanFrom(st, xs[..|xs| - 1]), xs[|xs| - 1])
  }

  /** The game is over when the scan met a single owner and counted at least two orbs after its first cell. */
  predicate GameOver(s: BoardState)
  {
    match ScanAll(Flatten(s.cells))
    case Mixed => false
    case Scanning(_, count) => count >= 2
  }

  lemma {:induction false} ScanFromAll(xs: seq<Cell>, ys: seq<Cell>)
    ensures ScanAll(xs + ys) == ScanFrom(ScanAll(xs), ys)
    decreases |ys|
  {
    if ys != [] {
      assert (xs + ys)[..|xs + ys| - 1] == xs + ys[..|ys| - 1];
      ScanFromAll(xs, ys[..|ys| - 1]);
    } else {
      assert xs + ys == xs;
    }
  }

  lemma {:induction false} ScanFromMixed(ys: seq<Cell>)
    ensures ScanFrom(Mixed, ys) == Mixed
    decreases |ys|
  {
    if ys != [] {
      ScanFromMixed(ys[..|ys| - 1]);
    }
  }

  /** Once the scan has met two owners, the rest of the board does not matter. */
  lemma MixedIsFinal(xs: seq<Cell>, ys: seq<Cell>)
    requires ScanAll(xs) == Mixed
    ensures ScanAll(xs + ys) == Mixed
  {
    ScanFromAll(xs, ys);
    ScanFromMixed(ys);
  }

  /** The row-by-row scan of a grid, one cell further along row i. */
  lemma ScanGridStep(cells: seq<seq<Cell>>, i: int, j: int)
    requires 0 <= i < |cells| && 0 <= j < |cells[i]|
    ensures ScanAll(Flatten(cells[..i]) + cells[i][..j + 1])
         == ScanStep(ScanAll(Flatten(cells[..i]) + cells[i][..j]), cells[i][j])
  {
    var seen := Flatten(cells[..i]) + cells[i][..j];
    assert Flatten(cells[..i]) + cells[i][..j + 1] == seen + [cells[i][j]];
    assert (seen + [cells[i][j]])[..|seen|] == seen;
  }

  /** A scan of a grid that turns mixed at (i, j) is mixed for the whole grid. */
  lemma MixedGrid(cells: seq<seq<Cell>>, i: int, j: int)
    requires 0 <= i < |cells| && 0 <= j < |cells[i]|
    requires ScanAll(Flatten(cells[..i]) + cells[i][..j + 1]) == Mixed
    ensures ScanAll(Flatten(cells)) == Mixed
  {
    FlattenSplit(cells, i, j + 1);
    MixedIsFinal(Flatten(cells[..i]) + cells[i][..j + 1], cells[i][j + 1..] + Flatten(cells[i + 1..]));
  }

  predicate Owned(x: Cell)
  {
    x.color != Empty
  }

  /** The index of the first owned cell, |xs| when there is none. */
  function FirstOwned(xs: seq<Cell>): (k: nat)
    ensures k <= |xs|
    ensures forall m :: 0 <= m < k ==> !Owned(xs[m])
    ensures k < |xs| ==> Owned(xs[k])
    decreases |xs|
  {
    if xs == [] then 0
    else
      var k := FirstOwned(xs[..|xs| - 1]);
      if k < |xs| - 1 then k else if Owned(xs[|xs| - 1]) then |xs| - 1 else |xs|
  }

  /** The orbs on all owned cells, of whatever colour. */
  function OwnedOrbs(xs: seq<Cell>): int
    decreases |xs|
  {
    if xs == [] then 0 else OwnedOrbs(xs[..|xs| - 1]) + (if Owned(xs[|xs| - 1]) then xs[|xs| - 1].orbCount else 0)
  }

  /** Two owned cells of different colours. */
  predicate TwoOwners(xs: seq<Cell>)
  {
    exists a, b :: 0 <= a < |xs| && 0 <= b < |xs| && Owned(xs[a]) && Owned(xs[b]) && xs[a].color != xs[b].color
  }

  /**
    What the scan computes: it ends Mixed exactly when two colours own
    cells; otherwise it holds the colour of the first owned cell and the
    orbs of all owned cells except that first one.
   */
  lemma {:induction false} ScanAllMeaning(xs: seq<Cell>)
    ensures ScanAll(xs).Mixed? <==> TwoOwners(xs)
    ensures !TwoOwners(xs) ==>
      var k := FirstOwned(xs);
      ScanAll(xs) == Scanning(if k < |xs| then xs[k].color else Empty,
                              OwnedOrbs(xs) - (if k < |xs| then xs[k].orbCount else 0))
    decreases |xs|
  {
    if xs != [] {
      var n := |xs| - 1;
      var init, x := xs[..n], xs[n];
      ScanAllMeaning(init);
      var k := FirstOwned(init);
      if TwoOwners(init) {
        var a, b :| 0 <= a < |init| && 0 <= b < |init| && Owned(init[a]) && Owned(init[b]) && init[a].color != init[b].color;
        assert xs[a] == init[a] && xs[b] == init[b];
      } else {
        // every owned cell of init has the colour of init's first owned cell
        assert forall a :: 0 <= a < |init| && Owned(init[a]) ==> k < |init| && init[a].color == init[k].color;
        if Owned(x) && k < |init| && x.color != init[k].color {
          assert xs[n] == x && xs[k] == init[k];
          assert TwoOwners(xs);
        }
      }
    }
  }

  /**
    The game is over exactly when no two colours own cells and the owned
    cells after the first owned one (row-major) hold at least two orbs; the
    first owned cell's own orbs are not counted.
   */
  lemma GameOverMeaning(s: BoardState)
    ensures var xs := Flatten(s.cells);
      var k := FirstOwned(xs);
      GameOver(s) <==> !TwoOwners(xs) && k < |xs| && OwnedOrbs(xs) - xs[k].orbCount >= 2
  {
    var xs := Flatten(s.cells);
    ScanAllMeaning(xs);
    if !TwoOwners(xs) && FirstOwned(xs) == |xs| {
      OwnedOrbsNone(xs);
    }
  }

  lemma {:induction false} OwnedOrbsNone(xs: seq<Cell>)
    requires forall m :: 0 <= m < |xs| ==> !Owned(xs[m])
    ensures OwnedOrbs(xs) == 0
    decreases |xs|
  {
    if xs != [] {
      OwnedOrbsNone(xs[..|xs| - 1]);
    }
  }

  /** Two cells owned by different colours mean the game is not over, whatever the orb counts. */
  lemma NotOverWithTwoOwners(s: BoardState, p: Pos, q: Pos)
    requires WellShaped(s) && InRange(s, p) && InRange(s, q)
    requires Owned(At(s, p)) && Owned(At(s, q)) && At(s, p).color != At(s, q).color
    ensures !GameOver(s)
  {
    var xs := Flatten(s.cells);
    FlattenIndex(s.cells, s.cols, p.0, p.1);
    FlattenIndex(s.cells, s.cols, q.0, q.1);
    var a, b := p.0 * s.cols + p.1, q.0 * s.cols + q.1;
    assert Owned(xs[a]) && Owned(xs[b]) && xs[a].color != xs[b].color;
    ScanAllMeaning(xs);
  }
}
