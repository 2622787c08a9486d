// The game's module-level state (board, currentPlayer, gameActive,
// difficulty) as an object, and the functions of script.js that change it:
// handleClick, computerMove, the three move rules, minimax, endGame and
// resetGame.  Rendering is not modelled; the 500 ms timer becomes the
// `scheduled` result of HandleClick, after which the driver calls ComputerMove.
module Game {
  import opened TicTacToe
  import opened Minimax

  /** The opponent's strength, chosen on the home screen. */
  datatype Difficulty = Easy | Medium | Hard

  /** The cells after the computer's turn on board b, with k standing for the
      random draw of makeRandomMove. */
  function ComputerBoard(b: Board, d: Difficulty, k: nat): (r: Board)
    ensures forall j :: 0 <= j < 9 && r[j] != b[j] ==> b[j] == Empty && r[j] == O
  {
    match d
    case Easy => RandomPick(b, k)
    case Medium => if ImmediateWinExists(b) then b else RandomPick(b, k)
    case Hard =>
      match BestMove(b)
      case None => b
      case Some(m) => b[m := O]
  }

  /** The computer's turn puts O on at most one free cell and changes nothing
      else; it places one whenever a cell is free, except on medium when an
      O move would end the game, where the move is detected but never made. */
  lemma ComputerPlacesAtMostOneO(b: Board, d: Difficulty, k: nat)
    ensures ComputerBoard(b, d, k) == b ||
      exists m :: 0 <= m < 9 && b[m] == Empty && ComputerBoard(b, d, k) == b[m := O]
    ensures !IsFull(b) && !(d == Medium && ImmediateWinExists(b)) ==>
      exists m :: 0 <= m < 9 && b[m] == Empty && ComputerBoard(b, d, k) == b[m := O]
    ensures d == Medium && ImmediateWinExists(b) ==> ComputerBoard(b, d, k) == b
  {
    RandomPickPlacesOne(b, k);
    BestMoveIsLowestMaximum(b);
  }

  /** On medium, with O at 0 and 1 and X at 3 and 4, the computer sees its
      winning cell 2 and then leaves the board as it was. */
  lemma MediumSkipsWinningTurn(k: nat)
    ensures ComputerBoard([O, O, Empty, X, X, Empty, Empty, Empty, Empty], Medium, k) ==
            [O, O, Empty, X, X, Empty, Empty, Empty, Empty]
  {
    var b: Board := [O, O, Empty, X, X, Empty, Empty, Empty, Empty];
    assert Complete(b[2 := O], 0);
    assert b[2] == Empty && CheckWinner(b[2 := O]).Some?;
  }

  class Game {
    var board: array<Cell>
    var currentPlayer: Player
    var gameActive: bool
    var difficulty: Difficulty

    ghost predicate Valid()
      reads this`board
    {
      board.Length == 9
    }

    /** The cells of the board as a value. */
    function Cells(): Board
      reads this`board, board
      requires Valid()
    {
      board[..]
    }

    /** The initial values of the four globals. */
    constructor ()
      ensures Valid() && fresh(board)
      ensures Cells() == EmptyBoard && !IsTerminal(Cells())
      ensures currentPlayer == X && gameActive && difficulty == Easy
    {
      var cells := new Cell[9](_ => Empty);
      assert cells[..] == EmptyBoard;
      assert !Complete(EmptyBoard, 0);
      board := cells;
      currentPlayer := X;
      gameActive := true;
      difficulty := Easy;
    }

    /** minimax: searches by placing a mark on the shared board, recursing and
        clearing the cell again, so the board ends as it started. */
    method Minimax(depth: int, maximizing: bool) returns (score: int)
      requires Valid()
      modifies board
      decreases EmptyCount(Cells())
      ensures Cells() == old(Cells())
      ensures score == Score(old(Cells()), depth, maximizing)
    {
      var winner := CheckWinner(board[..]);
      if winner == Some(O) { return 10 - depth; }
      if winner == Some(X) { return depth - 10; }
      if IsFull(board[..]) { return 0; }

      ghost var b0 := Cells();
      // Both branches of the source run this loop; they differ only in the
      // mark placed ('O' or 'X') and in Math.max versus Math.min.
      var mark := Mover(maximizing);
      var bestScore := Seed(maximizing);
      var i := 0;
      while i < 9
        invariant 0 <= i <= 9
        invariant Cells() == b0
        invariant bestScore != Seed(!maximizing)
        invariant Sweep(b0, i, depth, maximizing, bestScore) == Sweep(b0, 0, depth, maximizing, Seed(maximizing))
      {
        if board[i] == Empty {
          board[i] := mark;
          PlaceFillsOne(b0, i, mark);
          var s := Minimax(depth + 1, !maximizing);
          board[i] := Empty;
          assert Cells() == b0;
          bestScore := if maximizing then MaxWith(s, bestScore) else MinWith(s, bestScore);
        }
        i := i + 1;
      }
      score := bestScore.v;
    }

    /** makeBestMove: plays O on the free cell of highest minimax score, the
        lowest such index on ties, and leaves a full board as it is. */
    method MakeBestMove()
      requires Valid()
      modifies board
      ensures Cells() == match BestMove(old(Cells())) case None => old(Cells()) case Some(m) => old(Cells())[m := O]
    {
      ghost var b0 := Cells();
      var bestMove: Option<nat> := None;
      var bestScore := NegInf;
      var i := 0;
      while i < 9
        invariant 0 <= i <= 9
        invariant Cells() == b0
        invariant bestMove.Some? ==> bestMove.value < 9 && b0[bestMove.value] == Empty
        invariant Choose(b0, i, bestScore, bestMove) == Choose(b0, 0, NegInf, None)
      {
        if board[i] == Empty {
          board[i] := O;
          var score := Minimax(0, false);
          board[i] := Empty;
          assert Cells() == b0;
          if Beats(score, bestScore) {
            bestScore := Finite(score);
            bestMove := Some(i);
          }
        }
        i := i + 1;
      }
      if bestMove.Some? {
        board[bestMove.value] := O;
      }
    }

    /** makeBlockingMove as written: it reports whether some free cell, filled
        with O, would give a winner, and clears that cell again without
        playing it, so the board never changes. */
    method MakeBlockingMove() returns (found: bool)
      requires Valid()
      modifies board
      ensures Cells() == old(Cells())
      ensures found == ImmediateWinExists(old(Cells()))
    {
      ghost var b0 := Cells();
      for i := 0 to 9
        invariant Cells() == b0
        invariant forall j :: 0 <= j < i && b0[j] == Empty ==> CheckWinner(b0[j := O]).None?
      {
        if board[i] == Empty {
          board[i] := O;
          if CheckWinner(board[..]).Some? {
            board[i] := Empty;
            assert Cells() == b0;
            return true;
          }
          board[i] := Empty;
          assert Cells() == b0;
        }
      }
      return false;
    }

    /** makeRandomMove: puts O on the k-th available move. */
    method MakeRandomMove(availableMoves: seq<nat>, k: nat)
      requires Valid() && k < |availableMoves| && availableMoves[k] < 9
      modifies board
      ensures Cells() == old(Cells())[availableMoves[k] := O]
    {
      board[availableMoves[k]] := O;
    }

    /** endGame's effect on the state: play stops. */
    method EndGame()
      modifies this`gameActive
      ensures !gameActive
    {
      gameActive := false;
    }

    /** handleClick on cell `index`.  A click on a taken cell or after the
        game has ended changes nothing.  Otherwise the current player's mark
        goes on the cell; a win or a full board ends the game with the player
        unchanged, and otherwise the turn passes to the other player.
        `scheduled` says whether the computer's move was scheduled. */
    method HandleClick(index: nat) returns (scheduled: bool)
      requires Valid() && index < 9
      modifies board, this`currentPlayer, this`gameActive
      ensures Valid()
      ensures !(old(board[index]) == Empty && old(gameActive)) ==>
        Cells() == old(Cells()) && currentPlayer == old(currentPlayer) &&
        gameActive == old(gameActive) && !scheduled
      ensures old(board[index]) == Empty && old(gameActive) ==>
        Cells() == old(Cells())[index := old(currentPlayer)] &&
        gameActive == !IsTerminal(Cells()) &&
        currentPlayer == (if IsTerminal(Cells()) then old(currentPlayer) else Other(old(currentPlayer))) &&
        scheduled == (gameActive && currentPlayer == O)
    {
      scheduled := false;
      if board[index] == Empty && gameActive {
        board[index] := currentPlayer;
        if CheckWinner(board[..]).Some? {
          EndGame();
        } else if IsFull(board[..]) {
          EndGame();
        } else {
          currentPlayer := Other(currentPlayer);
          scheduled := currentPlayer == O;
        }
      }
    }

    /** computerMove, with `choice` standing for the random draw.  After the
        game has ended nothing changes.  Otherwise the computer plays by its
        difficulty, the turn returns to X, and the game ends exactly when
        someone has won or the board is full. */
    method ComputerMove(choice: nat)
      requires Valid()
      modifies board, this`currentPlayer, this`gameActive
      ensures Valid()
      ensures !old(gameActive) ==>
        Cells() == old(Cells()) && currentPlayer == old(currentPlayer) && !gameActive
      ensures old(gameActive) ==>
        Cells() == ComputerBoard(old(Cells()), difficulty, choice) &&
        currentPlayer == X && gameActive == !IsTerminal(Cells())
    {
      if !gameActive { return; }

      var availableMoves := AvailableMoves(board[..]);
      if difficulty == Easy {
        if |availableMoves| > 0 {
          MakeRandomMove(availableMoves, choice % |availableMoves|);
        }
      } else if difficulty == Medium {
        var blocked := MakeBlockingMove();
        if !blocked && |availableMoves| > 0 {
          MakeRandomMove(availableMoves, choice % |availableMoves|);
        }
      } else {
        MakeBestMove();
      }

      currentPlayer := X;
      if CheckWinner(board[..]).Some? {
        EndGame();
      } else if IsFull(board[..]) {
        EndGame();
      }
    }

    /** resetGame: a fresh empty board, X to move, play on. */
    method ResetGame()
      modifies this`board, this`currentPlayer, this`gameActive
      ensures Valid() && fresh(board)
      ensures Cells() == EmptyBoard && currentPlayer == X && gameActive
    {
      board := new Cell[9](_ => Empty);
      currentPlayer := X;
      gameActive := true;
      assert board[..] == EmptyBoard;
    }

    /** A difficulty button: records the difficulty and starts a new game. */
    method ChooseDifficulty(d: Difficulty)
      modifies this`difficulty, this`board, this`currentPlayer, this`gameActive
      ensures Valid() && fresh(board)
      ensures difficulty == d && Cells() == EmptyBoard && currentPlayer == X && gameActive
    {
      difficulty := d;
      ResetGame();
    }
  }
}
