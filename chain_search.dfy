/**
  The game-tree search of the chain-reaction AI, on board values.

  `Minimax` is the plain game value of a position searched to a fixed depth;
  `AlphaBeta` is the search the AI performs, which stops scanning a node's
  moves once the window [alpha, beta] closes and returns the running maximum
  or minimum at that point (a fail-soft search). The main theorem,
  `AlphaBetaCorrect`, says the pruned search agrees with the plain one once
  both are clamped to the window, so with the window of all 32-bit integers
  it returns the exact game value on any board whose evaluations fit.
 */
module ChainSearch {
  import opened ChainRules

  /** C++ INT_MIN and INT_MAX for a 32-bit int. */
  const IntMin: int := -0x8000_0000
  const IntMax: int := 0x7fff_ffff

  /** Boards with at most this many cells have every evaluation strictly inside the 32-bit range. */
  const MaxCells: int := 700_000_000

  function Max(a: int, b: int): (m: int)
    ensures m >= a && m >= b && (m == a || m == b)
  {
    if a >= b then a else b
  }

  function Min(a: int, b: int): (m: int)
    ensures m <= a && m <= b && (m == a || m == b)
  {
    if a <= b then a else b
  }

  /** The opponent of a colour: blue against red, red against anyone else. */
  function Opp(c: char): (o: char)
    ensures o != c && o != Empty
    ensures c == 'R' ==> o == 'B'
    ensures c == 'B' ==> o == 'R'
  {
    if c == 'R' then 'B' else 'R'
  }

  /** The static evaluation: `me`'s orbs minus the opponent's. */
  function Evaluate(s: BoardState, me: char): int
  {
    Score(s, me) - Score(s, Opp(me))
  }

  /** On a board keeping the orb invariant, the evaluation is at most three orbs per cell either way. */
  lemma EvaluateBound(s: BoardState, me: char)
    requires ValidState(s)
    ensures -3 * (s.rows * s.cols) <= Evaluate(s, me) <= 3 * (s.rows * s.cols)
  {
    ScorePairBound(s, me, Opp(me));
  }

  /** Whether the search stops at this node without expanding it. */
  predicate Leaf(s: BoardState, depth: nat, mover: char)
  {
    depth == 0 || GameOver(s) || ValidMoves(s, mover) == []
  }

  /** The colour that moves at a node: `pc` at maximising nodes, its opponent at minimising ones. */
  function Mover(maximizing: bool, pc: char): char
  {
    if maximizing then pc else Opp(pc)
  }

  // ---------------------------------------------------------------------
  // The plain game value

  /**
    The game value of `s` searched `depth` plies deep, evaluated for `me`;
    `pc` maximises, its opponent minimises, and every placement runs its
    cascade for at most `fuel` visits.
   */
  function Minimax(s: BoardState, depth: nat, maximizing: bool, me: char, pc: char, fuel: nat): int
    requires WellShaped(s)
    decreases depth, 1, 0
  {
    var mover := Mover(maximizing, pc);
    if Leaf(s, depth, mover) then Evaluate(s, me)
    else if maximizing then MaxOver(s, ValidMoves(s, mover), depth, me, pc, fuel, IntMin)
    else MinOver(s, ValidMoves(s, mover), depth, me, pc, fuel, IntMax)
  }

  /** The largest of `acc` and the values after each move of `ms` by `pc`. */
  function MaxOver(s: BoardState, ms: seq<Pos>, depth: nat, me: char, pc: char, fuel: nat, acc: int): int
    requires WellShaped(s) && depth > 0
    decreases depth, 0, |ms|
  {
    if ms == [] then acc
    else
      var v := Minimax(Place(s, ms[0], pc, fuel), depth - 1, false, me, pc, fuel);
      MaxOver(s, ms[1..], depth, me, pc, fuel, Max(acc, v))
  }

  /** The smallest of `acc` and the values after each move of `ms` by the opponent of `pc`. */
  function MinOver(s: BoardState, ms: seq<Pos>, depth: nat, me: char, pc: char, fuel: nat, acc: int): int
    requires WellShaped(s) && depth > 0
    decreases depth, 0, |ms|
  {
    if ms == [] then acc
    else
      var v := Minimax(Place(s, ms[0], Opp(pc), fuel), depth - 1, true, me, pc, fuel);
      MinOver(s, ms[1..], depth, me, pc, fuel, Min(acc, v))
  }

  // ---------------------------------------------------------------------
  // The pruned search

  /** The value the alpha-beta search returns for `s` with the window [alpha, beta]. */
  function AlphaBeta(s: BoardState, depth: nat, alpha: int, beta: int, maximizing: bool, me: char, pc: char, fuel: nat): int
    requires WellShaped(s)
    decreases depth, 1, 0
  {
    var mover := Mover(maximizing, pc);
    if Leaf(s, depth, mover) then Evaluate(s, me)
    else if maximizing then ABMax(s, ValidMoves(s, mover), depth, alpha, beta, me, pc, fuel, IntMin)
    else ABMin(s, ValidMoves(s, mover), depth, alpha, beta, me, pc, fuel, IntMax)
  }

  /**
    The scan of a maximising node: each child is searched with the current
    window, the running maximum and alpha take its value, and the scan stops
    as soon as beta <= alpha.
   */
  function ABMax(s: BoardState, ms: seq<Pos>, depth: nat, alpha: int, beta: int, me: char, pc: char, fuel: nat, acc: int): int
    requires WellShaped(s) && depth > 0
    decreases depth, 0, |ms|
  {
    if ms == [] then acc
    else
      var e := AlphaBeta(Place(s, ms[0], pc, fuel), depth - 1, alpha, beta, false, me, pc, fuel);
      var acc', alpha' := Max(acc, e), Max(alpha, e);
      if beta <= alpha' then acc'
      else ABMax(s, ms[1..], depth, alpha', beta, me, pc, fuel, acc')
  }

  /** The scan of a minimising node, symmetric to ABMax with beta shrinking. */
  function ABMin(s: BoardState, ms: seq<Pos>, depth: nat, alpha: int, beta: int, me: char, pc: char, fuel: nat, acc: int): int
    requires WellShaped(s) && depth > 0
    decreases depth, 0, |ms|
  {
    if ms == [] then acc
    else
      var e := AlphaBeta(Place(s, ms[0], Opp(pc), fuel), depth - 1, alpha, beta, true, me, pc, fuel);
      var acc', beta' := Min(acc, e), Min(beta, e);
      if beta' <= alpha then acc'
      else ABMin(s, ms[1..], depth, alpha, beta', me, pc, fuel, acc')
  }

  /** One child of a maximising scan that starts at index `i`. */
  lemma ABMaxStep(s: BoardState, ms: seq<Pos>, i: nat, depth: nat, alpha: int, beta: int, me: char, pc: char, fuel: nat, acc: int, e: int)
    requires WellShaped(s) && depth > 0 && i < |ms|
    requires e == AlphaBeta(Place(s, ms[i], pc, fuel), depth - 1, alpha, beta, false, me, pc, fuel)
    ensures beta <= Max(alpha, e) ==> ABMax(s, ms[i..], depth, alpha, beta, me, pc, fuel, acc) == Max(acc, e)
    ensures beta > Max(alpha, e) ==> ABMax(s, ms[i..], depth, alpha, beta, me, pc, fuel, acc)
                                     == ABMax(s, ms[i + 1..], depth, Max(alpha, e), beta, me, pc, fuel, Max(acc, e))
  {
    assert ms[i..][0] == ms[i];
    assert ms[i..][1..] == ms[i + 1..];
  }

  /** One child of a minimising scan that starts at index `i`. */
  lemma ABMinStep(s: BoardState, ms: seq<Pos>, i: nat, depth: nat, alpha: int, beta: int, me: char, pc: char, fuel: nat, acc: int, e: int)
    requires WellShaped(s) && depth > 0 && i < |ms|
    requires e == AlphaBeta(Place(s, ms[i], Opp(pc), fuel), depth - 1, alpha, beta, true, me, pc, fuel)
    ensures Min(beta, e) <= alpha ==> ABMin(s, ms[i..], depth, alpha, beta, me, pc, fuel, acc) == Min(acc, e)
    ensures Min(beta, e) > alpha ==> ABMin(s, ms[i..], depth, alpha, beta, me, pc, fuel, acc)
                                     == ABMin(s, ms[i + 1..], depth, alpha, Min(beta, e), me, pc, fuel, Min(acc, e))
  {
    assert ms[i..][0] == ms[i];
    assert ms[i..][1..] == ms[i + 1..];
  }

  // ---------------------------------------------------------------------
  // Correctness of pruning

  /** `x` moved into the window [lo, hi]. */
  function Clamp(x: int, lo: int, hi: int): (c: int)
    requires lo < hi
    ensures lo <= c <= hi
    ensures lo < x < hi ==> c == x
    ensures x <= lo ==> c == lo
    ensures x >= hi ==> c == hi
  {
    if x <= lo then lo else if x >= hi then hi else x
  }

  /** Folding more values into a maximum preserves agreement inside the window. */
  lemma {:induction false} MaxOverCongruent(s: BoardState, ms: seq<Pos>, depth: nat, me: char, pc: char, fuel: nat,
                                            x: int, y: int, lo: int, hi: int)
    requires WellShaped(s) && depth > 0 && lo < hi && Clamp(x, lo, hi) == Clamp(y, lo, hi)
    ensures Clamp(MaxOver(s, ms, depth, me, pc, fuel, x), lo, hi) == Clamp(MaxOver(s, ms, depth, me, pc, fuel, y), lo, hi)
    decreases |ms|
  {
    if ms != [] {
      var v := Minimax(Place(s, ms[0], pc, fuel), depth - 1, false, me, pc, fuel);
      MaxOverCongruent(s, ms[1..], depth, me, pc, fuel, Max(x, v), Max(y, v), lo, hi);
    }
  }

  /** Folding more values into a minimum preserves agreement inside the window. */
  lemma {:induction false} MinOverCongruent(s: BoardState, ms: seq<Pos>, depth: nat, me: char, pc: char, fuel: nat,
                                            x: int, y: int, lo: int, hi: int)
    requires WellShaped(s) && depth > 0 && lo < hi && Clamp(x, lo, hi) == Clamp(y, lo, hi)
    ensures Clamp(MinOver(s, ms, depth, me, pc, fuel, x), lo, hi) == Clamp(MinOver(s, ms, depth, me, pc, fuel, y), lo, hi)
    decreases |ms|
  {
    if ms != [] {
      var v := Minimax(Place(s, ms[0], Opp(pc), fuel), depth - 1, true, me, pc, fuel);
      MinOverCongruent(s, ms[1..], depth, me, pc, fuel, Min(x, v), Min(y, v), lo, hi);
    }
  }

  /** A running maximum never falls below where it started. */
  lemma {:induction false} MaxOverAtLeast(s: BoardState, ms: seq<Pos>, depth: nat, me: char, pc: char, fuel: nat, acc: int)
    requires WellShaped(s) && depth > 0
    ensures MaxOver(s, ms, depth, me, pc, fuel, acc) >= acc
    decreases |ms|
  {
    if ms != [] {
      var v := Minimax(Place(s, ms[0], pc, fuel), depth - 1, false, me, pc, fuel);
      MaxOverAtLeast(s, ms[1..], depth, me, pc, fuel, Max(acc, v));
    }
  }

  /** A running minimum never rises above where it started. */
  lemma {:induction false} MinOverAtMost(s: BoardState, ms: seq<Pos>, depth: nat, me: char, pc: char, fuel: nat, acc: int)
    requires WellShaped(s) && depth > 0
    ensures MinOver(s, ms, depth, me, pc, fuel, acc) <= acc
    decreases |ms|
  {
    if ms != [] {
      var v := Minimax(Place(s, ms[0], Opp(pc), fuel), depth - 1, true, me, pc, fuel);
      MinOverAtMost(s, ms[1..], depth, me, pc, fuel, Min(acc, v));
    }
  }

  /** The pruned maximising scan never falls below its starting maximum. */
  lemma {:induction false} ABMaxAtLeast(s: BoardState, ms: seq<Pos>, depth: nat, alpha: int, beta: int, me: char, pc: char, fuel: nat, acc: int)
    requires WellShaped(s) && depth > 0
    ensures ABMax(s, ms, depth, alpha, beta, me, pc, fuel, acc) >= acc
    decreases |ms|
  {
    if ms != [] {
      var e := AlphaBeta(Place(s, ms[0], pc, fuel), depth - 1, alpha, beta, false, me, pc, fuel);
      if beta > Max(alpha, e) {
        ABMaxAtLeast(s, ms[1..], depth, Max(alpha, e), beta, me, pc, fuel, Max(acc, e));
      }
    }
  }

  /** The pruned minimising scan never rises above its starting minimum. */
  lemma {:induction false} ABMinAtMost(s: BoardState, ms: seq<Pos>, depth: nat, alpha: int, beta: int, me: char, pc: char, fuel: nat, acc: int)
    requires WellShaped(s) && depth > 0
    ensures ABMin(s, ms, depth, alpha, beta, me, pc, fuel, acc) <= acc
    decreases |ms|
  {
    if ms != [] {
      var e := AlphaBeta(Place(s, ms[0], Opp(pc), fuel), depth - 1, alpha, beta, true, me, pc, fuel);
      if Min(beta, e) > alpha {
        ABMinAtMost(s, ms[1..], depth, alpha, Min(beta, e), me, pc, fuel, Min(acc, e));
      }
    }
  }

  /**
    Alpha-beta pruning is sound: for any window alpha < beta, the pruned
    search and the plain game value agree once clamped to the window (any
    window of 32-bit integers). So a
    result strictly inside the window is the game value, a result at or
    below alpha means the game value is at or below alpha, and one at or
    above beta means the game value is at or above beta.
   */
  lemma {:induction false} AlphaBetaCorrect(s: BoardState, depth: nat, alpha: int, beta: int, maximizing: bool, me: char, pc: char, fuel: nat)
    requires WellShaped(s) && IntMin <= alpha < beta <= IntMax
    ensures Clamp(AlphaBeta(s, depth, alpha, beta, maximizing, me, pc, fuel), alpha, beta)
         == Clamp(Minimax(s, depth, maximizing, me, pc, fuel), alpha, beta)
    decreases depth, 1, 0
  {
    var mover := Mover(maximizing, pc);
    if !Leaf(s, depth, mover) {
      if maximizing {
        ABMaxCorrect(s, ValidMoves(s, mover), depth, alpha, beta, me, pc, fuel, IntMin);
      } else {
        ABMinCorrect(s, ValidMoves(s, mover), depth, alpha, beta, me, pc, fuel, IntMax);
      }
    }
  }

  /** The maximising scan agrees with the plain maximum inside the window while its maximum is at most alpha. */
  lemma {:induction false} ABMaxCorrect(s: BoardState, ms: seq<Pos>, depth: nat, alpha: int, beta: int, me: char, pc: char, fuel: nat, acc: int)
    requires WellShaped(s) && depth > 0 && IntMin <= alpha < beta <= IntMax && acc <= alpha
    ensures Clamp(ABMax(s, ms, depth, alpha, beta, me, pc, fuel, acc), alpha, beta)
         == Clamp(MaxOver(s, ms, depth, me, pc, fuel, acc), alpha, beta)
    decreases depth, 0, |ms|
  {
    if ms != [] {
      var t := Place(s, ms[0], pc, fuel);
      var e := AlphaBeta(t, depth - 1, alpha, beta, false, me, pc, fuel);
      var v := Minimax(t, depth - 1, false, me, pc, fuel);
      AlphaBetaCorrect(t, depth - 1, alpha, beta, false, me, pc, fuel);
      if e >= beta {
        MaxOverAtLeast(s, ms[1..], depth, me, pc, fuel, Max(acc, v));
      } else if e <= alpha {
        ABMaxCorrect(s, ms[1..], depth, alpha, beta, me, pc, fuel, Max(acc, e));
        MaxOverCongruent(s, ms[1..], depth, me, pc, fuel, Max(acc, e), Max(acc, v), alpha, beta);
      } else {
        assert v == e;
        ABMaxCorrect(s, ms[1..], depth, e, beta, me, pc, fuel, e);
        ABMaxAtLeast(s, ms[1..], depth, e, beta, me, pc, fuel, e);
        MaxOverAtLeast(s, ms[1..], depth, me, pc, fuel, e);
      }
    }
  }

  /** The minimising scan agrees with the plain minimum inside the window while its minimum is at least beta. */
  lemma {:induction false} ABMinCorrect(s: BoardState, ms: seq<Pos>, depth: nat, alpha: int, beta: int, me: char, pc: char, fuel: nat, acc: int)
    requires WellShaped(s) && depth > 0 && IntMin <= alpha < beta <= IntMax && acc >= beta
    ensures Clamp(ABMin(s, ms, depth, alpha, beta, me, pc, fuel, acc), alpha, beta)
         == Clamp(MinOver(s, ms, depth, me, pc, fuel, acc), alpha, beta)
    decreases depth, 0, |ms|
  {
    if ms != [] {
      var t := Place(s, ms[0], Opp(pc), fuel);
      var e := AlphaBeta(t, depth - 1, alpha, beta, true, me, pc, fuel);
      var v := Minimax(t, depth - 1, true, me, pc, fuel);
      AlphaBetaCorrect(t, depth - 1, alpha, beta, true, me, pc, fuel);
      if e <= alpha {
        MinOverAtMost(s, ms[1..], depth, me, pc, fuel, Min(acc, v));
      } else if e >= beta {
        ABMinCorrect(s, ms[1..], depth, alpha, beta, me, pc, fuel, Min(acc, e));
        MinOverCongruent(s, ms[1..], depth, me, pc, fuel, Min(acc, e), Min(acc, v), alpha, beta);
      } else {
        assert v == e;
        ABMinCorrect(s, ms[1..], depth, alpha, e, me, pc, fuel, e);
        ABMinAtMost(s, ms[1..], depth, alpha, e, me, pc, fuel, e);
        MinOverAtMost(s, ms[1..], depth, me, pc, fuel, e);
      }
    }
  }

  // ---------------------------------------------------------------------
  // Bounds on the game value

  /** On a board keeping the orb invariant, the game value is bounded like the evaluation. */
  lemma {:induction false} MinimaxBound(s: BoardState, depth: nat, maximizing: bool, me: char, pc: char, fuel: nat)
    requires ValidState(s) && pc != Empty
    ensures -3 * (s.rows * s.cols) <= Minimax(s, depth, maximizing, me, pc, fuel) <= 3 * (s.rows * s.cols)
    decreases depth, 1, 0
  {
    var mover := Mover(maximizing, pc);
    EvaluateBound(s, me);
    if !Leaf(s, depth, mover) {
      if maximizing {
        MaxOverBound(s, ValidMoves(s, mover), depth, me, pc, fuel, IntMin);
      } else {
        MinOverBound(s, ValidMoves(s, mover), depth, me, pc, fuel, IntMax);
      }
    }
  }

  /** A running maximum over at least one bounded value is bounded. */
  lemma {:induction false} MaxOverBound(s: BoardState, ms: seq<Pos>, depth: nat, me: char, pc: char, fuel: nat, acc: int)
    requires ValidState(s) && pc != Empty && depth > 0
    requires acc <= 3 * (s.rows * s.cols) && (ms != [] || -3 * (s.rows * s.cols) <= acc)
    ensures -3 * (s.rows * s.cols) <= MaxOver(s, ms, depth, me, pc, fuel, acc) <= 3 * (s.rows * s.cols)
    decreases depth, 0, |ms|
  {
    if ms != [] {
      var t := Place(s, ms[0], pc, fuel);
      PlaceKeepsValid(s, ms[0], pc, fuel);
      MinimaxBound(t, depth - 1, false, me, pc, fuel);
      var v := Minimax(t, depth - 1, false, me, pc, fuel);
      MaxOverBound(s, ms[1..], depth, me, pc, fuel, Max(acc, v));
    }
  }

  /** A running minimum over at least one bounded value is bounded. */
  lemma {:induction false} MinOverBound(s: BoardState, ms: seq<Pos>, depth: nat, me: char, pc: char, fuel: nat, acc: int)
    requires ValidState(s) && pc != Empty && depth > 0
    requires acc >= -3 * (s.rows * s.cols) && (ms != [] || acc <= 3 * (s.rows * s.cols))
    ensures -3 * (s.rows * s.cols) <= MinOver(s, ms, depth, me, pc, fuel, acc) <= 3 * (s.rows * s.cols)
    decreases depth, 0, |ms|
  {
    if ms != [] {
      var t := Place(s, ms[0], Opp(pc), fuel);
      PlaceKeepsValid(s, ms[0], Opp(pc), fuel);
      MinimaxBound(t, depth - 1, true, me, pc, fuel);
      var v := Minimax(t, depth - 1, true, me, pc, fuel);
      MinOverBound(s, ms[1..], depth, me, pc, fuel, Min(acc, v));
    }
  }

  /**
    The AI's root call, with the window of all 32-bit integers, returns the
    exact game value on any board keeping the orb invariant with at most
    MaxCells cells, and that value lies strictly inside the 32-bit range.
   */
  lemma FullWindowExact(s: BoardState, depth: nat, maximizing: bool, me: char, pc: char, fuel: nat)
    requires ValidState(s) && pc != Empty && s.rows * s.cols <= MaxCells
    ensures AlphaBeta(s, depth, IntMin, IntMax, maximizing, me, pc, fuel) == Minimax(s, depth, maximizing, me, pc, fuel)
    ensures IntMin < Minimax(s, depth, maximizing, me, pc, fuel) < IntMax
  {
    MinimaxBound(s, depth, maximizing, me, pc, fuel);
    AlphaBetaCorrect(s, depth, IntMin, IntMax, maximizing, me, pc, fuel);
  }

  // ---------------------------------------------------------------------
  // Choosing the root move

  /** The value the AI assigns to each of its candidate moves: its own placement, then a search with the opponent to move. */
  function RootScores(s: BoardState, ms: seq<Pos>, depth: nat, me: char, fuel: nat): (r: seq<int>)
    requires WellShaped(s)
    ensures |r| == |ms|
    ensures forall i :: 0 <= i < |ms| ==> r[i] == AlphaBeta(Place(s, ms[i], me, fuel), depth, IntMin, IntMax, false, me, me, fuel)
  {
    if ms == [] then []
    else RootScores(s, ms[..|ms| - 1], depth, me, fuel)
         + [AlphaBeta(Place(s, ms[|ms| - 1], me, fuel), depth, IntMin, IntMax, false, me, me, fuel)]
  }

  /**
    The root scan: starting from score IntMin and index 0, an index is taken
    whenever its score beats the best so far; the result is (best score, index).
   */
  function Pick(xs: seq<int>): (r: (int, nat))
    ensures xs == [] ==> r == (IntMin, 0)
    ensures xs != [] ==> r.1 < |xs|
  {
    if xs == [] then (IntMin, 0)
    else
      var b := Pick(xs[..|xs| - 1]);
      if xs[|xs| - 1] > b.0 then (xs[|xs| - 1], |xs| - 1) else b
  }

  /** One more step of the root scan: the next move's score replaces the best only when strictly larger. */
  lemma PickNext(s: BoardState, ms: seq<Pos>, i: nat, depth: nat, me: char, fuel: nat)
    requires WellShaped(s) && i < |ms|
    ensures var b := Pick(RootScores(s, ms[..i], depth, me, fuel));
      var v := AlphaBeta(Place(s, ms[i], me, fuel), depth, IntMin, IntMax, false, me, me, fuel);
      Pick(RootScores(s, ms[..i + 1], depth, me, fuel)) == if v > b.0 then (v, i) else b
  {
    var xs := RootScores(s, ms[..i + 1], depth, me, fuel);
    assert ms[..i + 1][..i] == ms[..i];
    assert xs[..|xs| - 1] == RootScores(s, ms[..i], depth, me, fuel);
  }

  /**
    When every score exceeds IntMin, the scan picks the first index of a
    largest score: no score is larger, and every earlier one is smaller.
   */
  lemma {:induction false} PickFirstMax(xs: seq<int>)
    requires xs != [] && forall i :: 0 <= i < |xs| ==> xs[i] > IntMin
    ensures Pick(xs).0 == xs[Pick(xs).1]
    ensures forall i :: 0 <= i < |xs| ==> xs[i] <= xs[Pick(xs).1]
    ensures forall i :: 0 <= i < Pick(xs).1 ==> xs[i] < xs[Pick(xs).1]
  {
    var init := xs[..|xs| - 1];
    if init != [] {
      PickFirstMax(init);
    }
  }

  /**
    On a board keeping the orb invariant with at most MaxCells cells, the AI
    plays the first of its moves whose game value (the plain minimax value
    with the opponent to move) is largest.
   */
  lemma RootChoice(s: BoardState, ms: seq<Pos>, depth: nat, me: char, fuel: nat)
    requires ValidState(s) && me != Empty && s.rows * s.cols <= MaxCells && ms != []
    ensures var k := Pick(RootScores(s, ms, depth, me, fuel)).1;
      && k < |ms|
      && (forall i :: 0 <= i < |ms| ==>
            Minimax(Place(s, ms[i], me, fuel), depth, false, me, me, fuel) <= Minimax(Place(s, ms[k], me, fuel), depth, false, me, me, fuel))
      && (forall i :: 0 <= i < k ==>
            Minimax(Place(s, ms[i], me, fuel), depth, false, me, me, fuel) < Minimax(Place(s, ms[k], me, fuel), depth, false, me, me, fuel))
  {
    var xs := RootScores(s, ms, depth, me, fuel);
    forall i | 0 <= i < |ms|
      ensures xs[i] == Minimax(Place(s, ms[i], me, fuel), depth, false, me, me, fuel) && xs[i] > IntMin
    {
      PlaceKeepsValid(s, ms[i], me, fuel);
      FullWindowExact(Place(s, ms[i], me, fuel), depth, false, me, me, fuel);
    }
    PickFirstMax(xs);
  }
}
