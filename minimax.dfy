// What the computer's three move rules compute, as functions on board
// values: the minimax score, the choice made by makeBestMove, the test made
// by makeBlockingMove and the pick made by makeRandomMove.  The methods of
// Game.Game that mutate the shared array are proved against these.
module Minimax {
  import opened TicTacToe

  /** A running best score: the -Infinity and +Infinity seeds, or a finite score. */
  datatype Ext = NegInf | Finite(v: int) | PosInf

  /** Math.max(s, best) for a finite score s. */
  function MaxWith(s: int, best: Ext): Ext
  {
    match best
    case NegInf => Finite(s)
    case Finite(y) => Finite(if s >= y then s else y)
    case PosInf => PosInf
  }

  /** Math.min(s, best) for a finite score s. */
  function MinWith(s: int, best: Ext): Ext
  {
    match best
    case NegInf => NegInf
    case Finite(y) => Finite(if s <= y then s else y)
    case PosInf => Finite(s)
  }

  /** The seed of bestScore in each branch of minimax. */
  function Seed(maximizing: bool): Ext
  {
    if maximizing then NegInf else PosInf
  }

  /** The mark minimax puts down: 'O' when maximizing, 'X' when minimizing. */
  function Mover(maximizing: bool): Player
  {
    if maximizing then O else X
  }

  /** minimax(board, depth, isMaximizing): 10 - depth for an O win, depth - 10
      for an X win, 0 for a full board, otherwise the best child score for the
      side to move. */
  function Score(b: Board, depth: int, maximizing: bool): int
    decreases EmptyCount(b), 1
  {
    var winner := CheckWinner(b);
    if winner == Some(O) then 10 - depth
    else if winner == Some(X) then depth - 10
    else if IsFull(b) then 0
    else Sweep(b, 0, depth, maximizing, Seed(maximizing)).v
  }

  /** The for-loop of minimax from index i on, with running best score `best`.
      Once a free cell has been seen the result is finite: a seed is never returned. */
  function Sweep(b: Board, i: nat, depth: int, maximizing: bool, best: Ext): (r: Ext)
    requires i <= 9 && best != Seed(!maximizing)
    decreases EmptyCount(b), 0, 9 - i
    ensures r != Seed(!maximizing)
    ensures best.Finite? ==> r.Finite?
    ensures (exists j :: i <= j < 9 && b[j] == Empty) ==> r.Finite?
  {
    if i == 9 then best
    else if b[i] == Empty then
      var s := Score(b[i := Mover(maximizing)], depth + 1, !maximizing);
      Sweep(b, i + 1, depth, maximizing, if maximizing then MaxWith(s, best) else MinWith(s, best))
    else Sweep(b, i + 1, depth, maximizing, best)
  }

  /** The loop of minimax stays within depth - 9 .. 9 - depth, or returns its
      seed when no free cell remains after index i. */
  lemma {:induction false} SweepBounds(b: Board, i: nat, depth: int, maximizing: bool, best: Ext)
    requires i <= 9 && 0 <= depth && depth + EmptyCount(b) <= 10
    requires best == Seed(maximizing) || (best.Finite? && depth - 9 <= best.v <= 9 - depth)
    decreases EmptyCount(b), 0, 9 - i
    ensures Sweep(b, i, depth, maximizing, best) == Seed(maximizing) ||
            (Sweep(b, i, depth, maximizing, best).Finite? &&
             depth - 9 <= Sweep(b, i, depth, maximizing, best).v <= 9 - depth)
  {
    if i < 9 {
      if b[i] == Empty {
        var child := b[i := Mover(maximizing)];
        PlaceFillsOne(b, i, Mover(maximizing));
        ScoreBounds(child, depth + 1, !maximizing);
        var s := Score(child, depth + 1, !maximizing);
        SweepBounds(b, i + 1, depth, maximizing, if maximizing then MaxWith(s, best) else MinWith(s, best));
      } else {
        SweepBounds(b, i + 1, depth, maximizing, best);
      }
    }
  }

  /** Scores lie in depth - 10 .. 10 - depth (so in -10 .. 10 from depth 0),
      and the extreme 10 - depth (depth - 10) is reached only by an O (X) win
      already on the board: a faster win always scores higher. */
  lemma {:induction false} ScoreBounds(b: Board, depth: int, maximizing: bool)
    requires 0 <= depth && depth + EmptyCount(b) <= 10
    decreases EmptyCount(b), 1
    ensures depth - 10 <= Score(b, depth, maximizing) <= 10 - depth
    ensures depth <= 9 && CheckWinner(b) != Some(O) ==> Score(b, depth, maximizing) <= 9 - depth
    ensures depth <= 9 && CheckWinner(b) != Some(X) ==> depth - 9 <= Score(b, depth, maximizing)
  {
    var winner := CheckWinner(b);
    if winner != Some(O) && winner != Some(X) && !IsFull(b) {
      SweepBounds(b, 0, depth, maximizing, Seed(maximizing));
    }
  }

  /** The score makeBestMove computes for playing O at i. */
  function MoveValue(b: Board, i: nat): int
    requires i < 9
  {
    Score(b[i := O], 0, false)
  }

  /** `score > bestScore`, with bestScore possibly still -Infinity. */
  predicate Beats(s: int, best: Ext)
  {
    match best
    case NegInf => true
    case Finite(y) => s > y
    case PosInf => false
  }

  /** The for-loop of makeBestMove from index i on; returns the final
      (bestScore, bestMove). */
  function Choose(b: Board, i: nat, bestScore: Ext, bestMove: Option<nat>): (r: (Ext, Option<nat>))
    requires i <= 9
    requires bestMove.Some? ==> bestMove.value < 9 && b[bestMove.value] == Empty
    decreases 9 - i
    ensures r.1.Some? ==> r.1.value < 9 && b[r.1.value] == Empty
  {
    if i == 9 then (bestScore, bestMove)
    else if b[i] == Empty && Beats(MoveValue(b, i), bestScore) then
      Choose(b, i + 1, Finite(MoveValue(b, i)), Some(i))
    else Choose(b, i + 1, bestScore, bestMove)
  }

  /** The cell makeBestMove plays, or None when no cell is free. */
  function BestMove(b: Board): (r: Option<nat>)
    ensures r.Some? ==> r.value < 9 && b[r.value] == Empty
  {
    Choose(b, 0, NegInf, None).1
  }

  /** What makeBestMove's loop knows after scanning indices below i. */
  ghost predicate Scanned(b: Board, i: nat, bestScore: Ext, bestMove: Option<nat>)
    requires i <= 9
  {
    match bestMove
    case None =>
      bestScore == NegInf && forall j :: 0 <= j < i ==> b[j] != Empty
    case Some(m) =>
      m < i && b[m] == Empty && bestScore == Finite(MoveValue(b, m)) &&
      (forall j :: 0 <= j < i && b[j] == Empty ==> MoveValue(b, j) <= MoveValue(b, m)) &&
      (forall j :: 0 <= j < m && b[j] == Empty ==> MoveValue(b, j) < MoveValue(b, m))
  }

  /** One iteration of makeBestMove's loop keeps what the loop knows. */
  lemma ScannedStep(b: Board, i: nat, bestScore: Ext, bestMove: Option<nat>)
    requires i < 9 && Scanned(b, i, bestScore, bestMove)
    ensures b[i] == Empty && Beats(MoveValue(b, i), bestScore) ==>
      Scanned(b, i + 1, Finite(MoveValue(b, i)), Some(i))
    ensures !(b[i] == Empty && Beats(MoveValue(b, i), bestScore)) ==>
      Scanned(b, i + 1, bestScore, bestMove)
  {
    var v := MoveValue(b, i);
    if b[i] == Empty && Beats(v, bestScore) {
      match bestMove
      case None =>
      case Some(m) =>
        forall j | 0 <= j < i + 1 && b[j] == Empty
          ensures MoveValue(b, j) <= v
        {
          if j < i { assert MoveValue(b, j) <= MoveValue(b, m); }
        }
    }
  }

  lemma {:induction false} ChooseKeepsScanned(b: Board, i: nat, bestScore: Ext, bestMove: Option<nat>)
    requires i <= 9 && Scanned(b, i, bestScore, bestMove)
    decreases 9 - i
    ensures var r := Choose(b, i, bestScore, bestMove); Scanned(b, 9, r.0, r.1)
  {
    if i < 9 {
      ScannedStep(b, i, bestScore, bestMove);
      if b[i] == Empty && Beats(MoveValue(b, i), bestScore) {
        ChooseKeepsScanned(b, i + 1, Finite(MoveValue(b, i)), Some(i));
      } else {
        ChooseKeepsScanned(b, i + 1, bestScore, bestMove);
      }
    }
  }

  /** makeBestMove plays exactly when some cell is free; it then plays a free
      cell of maximal score, the lowest-indexed one among equal scores. */
  lemma BestMoveIsLowestMaximum(b: Board)
    ensures BestMove(b).None? <==> IsFull(b)
    ensures BestMove(b).Some? ==>
      var m := BestMove(b).value;
      m < 9 && b[m] == Empty &&
      (forall j :: 0 <= j < 9 && b[j] == Empty ==> MoveValue(b, j) <= MoveValue(b, m)) &&
      (forall j :: 0 <= j < m && b[j] == Empty ==> MoveValue(b, j) < MoveValue(b, m))
  {
    ChooseKeepsScanned(b, 0, NegInf, None);
  }

  /** When O can win at once, the hard opponent takes the lowest such cell. */
  lemma HardTakesFirstImmediateWin(b: Board, i: nat)
    requires i < 9 && b[i] == Empty && CheckWinner(b[i := O]) == Some(O)
    requires forall j :: 0 <= j < i && b[j] == Empty ==> CheckWinner(b[j := O]) != Some(O)
    ensures BestMove(b) == Some(i)
  {
    BestMoveIsLowestMaximum(b);
    assert MoveValue(b, i) == 10;
    var m := BestMove(b).value;
    PlaceFillsOne(b, m, O);
    EmptyCountBounds(b);
    ScoreBounds(b[m := O], 0, false);
  }

  /** With O at 0 and 1 and X at 3 and 4, the hard opponent completes the top row. */
  lemma HardCompletesTopRow()
    ensures BestMove([O, O, Empty, X, X, Empty, Empty, Empty, Empty]) == Some(2)
  {
    var b: Board := [O, O, Empty, X, X, Empty, Empty, Empty, Empty];
    assert Complete(b[2 := O], 0);
    HardTakesFirstImmediateWin(b, 2);
  }

  /** The condition makeBlockingMove detects: some free cell, filled with O,
      makes checkWinner non-null. */
  predicate ImmediateWinExists(b: Board)
    ensures ImmediateWinExists(b) ==> !IsFull(b)
  {
    exists i :: 0 <= i < 9 && b[i] == Empty && CheckWinner(b[i := O]).Some?
  }

  /** On a board nobody has won yet, the winner an O move creates is O: the
      test in makeBlockingMove looks for O's own winning move, not X's threat. */
  lemma OnlyOCanWinByPlacingO(b: Board, i: nat)
    requires i < 9 && b[i] == Empty && CheckWinner(b) == None
    ensures CheckWinner(b[i := O]).Some? ==> CheckWinner(b[i := O]) == Some(O)
  {
    var c := b[i := O];
    var w := CheckWinner(c);
    if w.Some? {
      var k :| 0 <= k < 8 && LineOf(c, k, w.value) && forall j :: 0 <= j < k ==> !Complete(c, j);
    }
  }

  /** makeRandomMove with the random index replaced by the caller's choice k,
      reduced into range as Math.floor(Math.random() * n) would be; with no
      free cell no cell changes. */
  function RandomPick(b: Board, k: nat): (r: Board)
    ensures forall j :: 0 <= j < 9 && r[j] != b[j] ==> b[j] == Empty && r[j] == O
  {
    var moves := AvailableMoves(b);
    if |moves| == 0 then b else b[moves[k % |moves|] := O]
  }

  /** The random pick puts O on one free cell, and always does when one is free. */
  lemma RandomPickPlacesOne(b: Board, k: nat)
    ensures IsFull(b) ==> RandomPick(b, k) == b
    ensures !IsFull(b) ==>
      exists m :: 0 <= m < 9 && b[m] == Empty && RandomPick(b, k) == b[m := O]
  {
    AvailableMovesCount(b);
    var moves := AvailableMoves(b);
    if |moves| > 0 {
      var m := moves[k % |moves|];
      assert 0 <= m < 9 && b[m] == Empty && RandomPick(b, k) == b[m := O];
    }
  }
}
