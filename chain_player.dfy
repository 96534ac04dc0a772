/**
  The two players of the chain-reaction game. Both act on a Board object in
  place: the human player makes the one placement it is asked for if the
  target is playable, and the AI player scores each of its moves by an
  alpha-beta search over copies of the board and plays the first best one.
  Each method is specified by the value-level search in ChainSearch.

  A cascade is run for at most `fuel` visits (see ChainBoard.Board.InsertOrb),
  so every method here takes the same bound.
 */
module ChainPlayer {
  import opened ChainRules
  import opened ChainSearch
  import opened ChainBoard

  /**
    A fresh copy of `board` with one unforced orb of `c` placed at `p`;
    `board` itself is left as it was.
   */
  method Child(board: Board, p: Pos, c: char, fuel: nat) returns (child: Board)
    requires board.Valid()
    ensures child.Valid() && child.State() == Place(board.State(), p, c, fuel)
  {
    child := new Board.Copy(board);
    var _ := child.InsertOrb(p.0, p.1, c, false, fuel);
  }

  class Human {
    const color: char

    constructor (color: char)
      ensures this.color == color
    {
      this.color := color;
    }

    /**
      Refuses a target owned by another colour and leaves the board alone;
      otherwise places one unforced orb there (a target off the grid is
      accepted and the orb is dropped) and reports success.
     */
    method MakeMove(b: Board, row: int, col: int, fuel: nat) returns (ok: bool)
      requires b.Valid()
      modifies b, b.grid
      ensures b.Valid()
      ensures ok <==> old(b.GetColor(row, col)) == Empty || old(b.GetColor(row, col)) == color
      ensures ok ==> b.State() == Place(old(b.State()), (row, col), color, fuel)
      ensures !ok ==> b.State() == old(b.State())
    {
      if b.GetColor(row, col) != Empty && b.GetColor(row, col) != color {
        return false;
      }
      var _ := b.InsertOrb(row, col, color, false, fuel);
      ok := true;
    }
  }

  class AI {
    const color: char
    const depth: nat

    constructor (color: char, depth: nat)
      ensures this.color == color && this.depth == depth
    {
      this.color := color;
      this.depth := depth;
    }

    /** `c`'s orbs minus those of its opponent. */
    method Evaluate(b: Board, c: char) returns (score: int)
      requires b.Valid()
      ensures score == Score(b.State(), c) - Score(b.State(), Opp(c))
    {
      var mine := b.GetScore(c);
      var theirs := b.GetScore(Opp(c));
      score := mine - theirs;
    }

    /**
      The alpha-beta search from `board`, always evaluating leaves for this
      AI's own colour. Every child is searched on a fresh copy of the board,
      so `board` itself is never changed.
     */
    method Minimax(board: Board, depth: nat, alpha: int, beta: int, maximizing: bool, playerColor: char, fuel: nat)
      returns (value: int)
      requires board.Valid()
      ensures value == AlphaBeta(board.State(), depth, alpha, beta, maximizing, color, playerColor, fuel)
      decreases depth
    {
      var s := board.State();
      var over := board.IsGameOver();
      if depth == 0 || over {
        value := Evaluate(board, color);
        return;
      }
      var mover := if maximizing then playerColor else Opp(playerColor);
      var moves := board.GetValidMoves(mover);
      if moves == [] {
        value := Evaluate(board, color);
        return;
      }
      if maximizing {
        var maxEval := IntMin;
        var a := alpha;
        var i := 0;
        while i < |moves|
          invariant 0 <= i <= |moves|
          invariant board.Valid() && board.State() == s
          invariant ABMax(s, moves, depth, alpha, beta, color, playerColor, fuel, IntMin)
                 == ABMax(s, moves[i..], depth, a, beta, color, playerColor, fuel, maxEval)
        {
          var temp := Child(board, moves[i], playerColor, fuel);
          var eval := Minimax(temp, depth - 1, a, beta, false, playerColor, fuel);
          ABMaxStep(s, moves, i, depth, a, beta, color, playerColor, fuel, maxEval, eval);
          maxEval := Max(maxEval, eval);
          a := Max(a, eval);
          if beta <= a {
            return maxEval;
          }
          i := i + 1;
        }
        value := maxEval;
      } else {
        var minEval := IntMax;
        var opp := Opp(playerColor);
        var bt := beta;
        var i := 0;
        while i < |moves|
          invariant 0 <= i <= |moves|
          invariant board.Valid() && board.State() == s
          invariant ABMin(s, moves, depth, alpha, beta, color, playerColor, fuel, IntMax)
                 == ABMin(s, moves[i..], depth, alpha, bt, color, playerColor, fuel, minEval)
        {
          var temp := Child(board, moves[i], opp, fuel);
          var eval := Minimax(temp, depth - 1, alpha, bt, true, playerColor, fuel);
          ABMinStep(s, moves, i, depth, alpha, bt, color, playerColor, fuel, minEval, eval);
          minEval := Min(minEval, eval);
          bt := Min(bt, eval);
          if bt <= alpha {
            return minEval;
          }
          i := i + 1;
        }
        value := minEval;
      }
    }

    /**
      Refuses, leaving the board alone, when this AI has no valid move.
      Otherwise scores every valid move (in row-major order) by its own
      placement on a copy followed by a full-depth search with the opponent
      to move, plays the first move with the highest score, and reports
      success. The row and column hints are ignored.
     */
    method MakeMove(b: Board, row: int, col: int, fuel: nat) returns (ok: bool)
      requires b.Valid()
      modifies b, b.grid
      ensures b.Valid()
      ensures ok <==> ValidMoves(old(b.State()), color) != []
      ensures !ok ==> b.State() == old(b.State())
      ensures ok ==>
        var ms := ValidMoves(old(b.State()), color);
        var k := Pick(RootScores(old(b.State()), ms, depth, color, fuel)).1;
        k < |ms| && b.State() == Place(old(b.State()), ms[k], color, fuel)
    {
      var s := b.State();
      var bestScore := IntMin;
      var moves := b.GetValidMoves(color);
      if moves == [] {
        return false;
      }
      var bestMove := moves[0];
      ghost var k := 0;
      for i := 0 to |moves|
        invariant b.Valid() && b.State() == s
        invariant (bestScore, k) == Pick(RootScores(s, moves[..i], depth, color, fuel))
        invariant k < |moves| && bestMove == moves[k]
      {
        var temp := Child(b, moves[i], color, fuel);
        var score := Minimax(temp, depth, IntMin, IntMax, false, color, fuel);
        PickNext(s, moves, i, depth, color, fuel);
        if score > bestScore {
          bestScore := score;
          bestMove := moves[i];
          k := i;
        }
      }
      assert moves[..|moves|] == moves;
      var _ := b.InsertOrb(bestMove.0, bestMove.1, color, false, fuel);
      ok := true;
    }
  }
}
