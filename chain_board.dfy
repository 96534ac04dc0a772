/**
  The chain-reaction board as an object: a fixed rows x cols grid of cells
  held in an array and updated in place by the cascade. Every method is
  specified against the value-level rules in ChainRules through the ghost
  field `cells`, which the object invariant ties to the array.
 */
module ChainBoard {
  import opened ChainRules

  /**
    Offers the four neighbours of `front` (up, right, down, left) to the
    queue, skipping those already waiting; `inQueue` is the set of waiting
    positions before and after.
   */
  method EnqueueNeighbours(queue: seq<Pos>, inQueue: set<Pos>, front: Pos) returns (queue': seq<Pos>, inQueue': set<Pos>)
    requires inQueue == set p | p in queue
    ensures queue' == EnqueueAll(queue, Neighbours(front))
    ensures inQueue' == set p | p in queue'
  {
    var dr, dc := [-1, 0, 1, 0], [0, 1, 0, -1];
    ghost var ns := Neighbours(front);
    queue', inQueue' := queue, inQueue;
    for k := 0 to 4
      invariant queue' == EnqueueAll(queue, ns[..k])
      invariant inQueue' == set p | p in queue'
    {
      var next := (front.0 + dr[k], front.1 + dc[k]);
      assert next == ns[k];
      assert ns[..k + 1][..k] == ns[..k];
      if next !in inQueue' {
        queue' := queue' + [next];
        inQueue' := inQueue' + {next};
      }
    }
    assert ns[..4] == ns;
  }

  class Board {
    const rows: nat
    const cols: nat
    const grid: array2<Cell>
    /** The grid's contents, row by row. */
    ghost var cells: seq<seq<Cell>>

    ghost predicate Valid()
      reads this, grid
    {
      grid.Length0 == rows && grid.Length1 == cols && WellShaped(State()) &&
      forall i, j :: 0 <= i < rows && 0 <= j < cols ==> grid[i, j] == cells[i][j]
    }

    /** The board as a value. */
    ghost function State(): BoardState
      reads this
    {
      BoardState(rows, cols, cells)
    }

    /** A board of the given size with every cell empty. */
    constructor (rows: nat, cols: nat)
      ensures Valid() && fresh(grid)
      ensures State() == EmptyState(rows, cols)
    {
      this.rows := rows;
      this.cols := cols;
      grid := new Cell[rows, cols]((i, j) => EmptyCell);
      cells := EmptyState(rows, cols).cells;
    }

    /** An independent copy of `other`: same size, same cells, a grid of its own. */
    constructor Copy(other: Board)
      requires other.Valid()
      ensures Valid() && fresh(grid)
      ensures State() == other.State()
    {
      rows := other.rows;
      cols := other.cols;
      var source := other.grid;
      grid := new Cell[other.rows, other.cols]((i, j) reads source
        requires 0 <= i < source.Length0 && 0 <= j < source.Length1 => source[i, j]);
      cells := other.cells;
    }

    /** Overwrites one cell of the grid. */
    method SetCell(r: int, c: int, x: Cell)
      requires Valid() && 0 <= r < rows && 0 <= c < cols
      modifies this, grid
      ensures Valid()
      ensures State() == With(old(State()), (r, c), x)
    {
      grid[r, c] := x;
      cells := cells[r := cells[r][c := x]];
    }

    /**
      Places one orb of `color` at (row, col) and resolves the cascade with a
      queue of scheduled coordinates and the set of coordinates now in it,
      for at most `fuel` visits; `settled` says whether the queue ran empty.
     */
    method InsertOrb(row: int, col: int, color: char, force: bool, fuel: nat) returns (settled: bool)
      requires Valid()
      modifies this, grid
      ensures Valid()
      ensures (State(), settled) == Cascade(old(State()), [(row, col)], color, force, fuel)
    {
      var queue: seq<Pos> := [(row, col)];
      var inQueue: set<Pos> := {(row, col)};
      var budget := fuel;
      while queue != [] && budget > 0
        invariant Valid()
        invariant Distinct(queue)
        invariant inQueue == set p | p in queue
        invariant Cascade(State(), queue, color, force, budget) == Cascade(old(State()), [(row, col)], color, force, fuel)
        decreases budget
      {
        ghost var before, waiting := State(), queue;
        var front := queue[0];
        queue := queue[1..];
        inQueue := inQueue - {front};
        budget := budget - 1;
        var r, c := front.0, front.1;
        if 0 <= r < rows && 0 <= c < cols {
          var cell := grid[r, c];
          if cell.color == Empty || cell.color == color || force {
            SetCell(r, c, Cell(cell.orbCount + 1, color));
          }
          if grid[r, c].orbCount >= CriticalMass(rows, cols, r, c) {
            SetCell(r, c, EmptyCell);
            ghost var rest := queue;
            queue, inQueue := EnqueueNeighbours(queue, inQueue, front);
            EnqueueAllDistinct(rest, Neighbours(front));
          }
        }
        assert (State(), queue) == Visit(before, waiting, color, force);
      }
      settled := queue == [];
    }

    /** The cells `color` may play, scanned row by row. */
    method GetValidMoves(color: char) returns (moves: seq<Pos>)
      requires Valid()
      ensures moves == ValidMoves(State(), color)
    {
      moves := [];
      for i := 0 to rows
        invariant moves == MovesOfRows(cells[..i], color)
      {
        for j := 0 to cols
          invariant moves == MovesOfRows(cells[..i], color) + RowMoves(cells[i][..j], i, color)
        {
          assert cells[i][..j + 1][..j] == cells[i][..j];
          if grid[i, j].color == color || grid[i, j].color == Empty {
            moves := moves + [(i, j)];
          }
        }
        assert cells[i][..cols] == cells[i];
        assert cells[..i + 1][..i] == cells[..i];
      }
      assert cells[..rows] == cells;
    }

    /** The orbs on the cells owned by `color`. */
    method GetScore(color: char) returns (score: int)
      requires Valid()
      ensures score == Score(State(), color)
    {
      score := 0;
      for i := 0 to rows
        invariant score == SumOwned(Flatten(cells[..i]), color)
      {
        assert Flatten(cells[..i]) + cells[i][..0] == Flatten(cells[..i]);
        for j := 0 to cols
          invariant score == SumOwned(Flatten(cells[..i]) + cells[i][..j], color)
        {
          ghost var seen := Flatten(cells[..i]) + cells[i][..j];
          assert Flatten(cells[..i]) + cells[i][..j + 1] == seen + [cells[i][j]];
          assert (seen + [cells[i][j]])[..|seen|] == seen;
          if grid[i, j].color == color {
            score := score + grid[i, j].orbCount;
          }
        }
        assert cells[i][..cols] == cells[i];
        FlattenNextRow(cells, i);
      }
      assert cells[..rows] == cells;
    }

    /**
      Scans the cells row by row: false as soon as a second owner appears,
      otherwise whether the orbs counted after the first owned cell reach 2.
     */
    method IsGameOver() returns (over: bool)
      requires Valid()
      ensures over == GameOver(State())
    {
      var firstColor := Empty;
      var orbCount := 0;
      for i := 0 to rows
        invariant ScanAll(Flatten(cells[..i])) == Scanning(firstColor, orbCount)
      {
        assert Flatten(cells[..i]) + cells[i][..0] == Flatten(cells[..i]);
        for j := 0 to cols
          invariant ScanAll(Flatten(cells[..i]) + cells[i][..j]) == Scanning(firstColor, orbCount)
        {
          ScanGridStep(cells, i, j);
          var x := grid[i, j];
          if x.color == Empty {
          } else if firstColor == Empty {
            firstColor := x.color;
          } else if x.color != firstColor {
            MixedGrid(cells, i, j);
            return false;
          } else {
            orbCount := orbCount + x.orbCount;
          }
        }
        assert cells[i][..cols] == cells[i];
        FlattenNextRow(cells, i);
      }
      assert cells[..rows] == cells;
      over := orbCount >= 2;
    }

    /** The colour at (row, col); off the grid, the empty colour. */
    function GetColor(row: int, col: int): (c: char)
      reads this, grid
      requires Valid()
      ensures !InRange(State(), (row, col)) ==> c == Empty
      ensures InRange(State(), (row, col)) ==> c == At(State(), (row, col)).color
    {
      if row < 0 || row >= rows || col < 0 || col >= cols then Empty else grid[row, col].color
    }

    /**
      The orb count at (row, col); off the grid, 0. On a board keeping the
      orb invariant it is below the cell's critical mass and is 0 exactly
      when the cell's colour is empty.
     */
    function GetOrbCount(row: int, col: int): (n: int)
      reads this, grid
      requires Valid()
      ensures !InRange(State(), (row, col)) ==> n == 0
      ensures InRange(State(), (row, col)) ==> n == At(State(), (row, col)).orbCount
      ensures ValidState(State()) ==> 0 <= n && (n == 0 <==> GetColor(row, col) == Empty)
      ensures ValidState(State()) && InRange(State(), (row, col)) ==> n < CriticalMass(rows, cols, row, col)
    {
      if row < 0 || row >= rows || col < 0 || col >= cols then 0
      else
        assert ValidState(State()) ==> CellOk(State(), row, col, cells[row][col]);
        grid[row, col].orbCount
    }
  }
}
