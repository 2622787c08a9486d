// The board of the tic-tac-toe engine and its two pure queries: win
// detection (checkWinner) and the list of free cells that computerMove
// builds with map/filter.
module TicTacToe {

  /** One cell of the grid: '' , 'X' or 'O'. */
  datatype Cell = Empty | X | O

  /** A mark a player puts down; currentPlayer is always 'X' or 'O'. */
  type Player = c: Cell | c != Empty witness X

  /** The 9-cell grid in row-major order: 0-1-2 top, 3-4-5 middle, 6-7-8 bottom. */
  type Board = s: seq<Cell> | |s| == 9
    witness [Empty, Empty, Empty, Empty, Empty, Empty, Empty, Empty, Empty]

  datatype Option<T> = None | Some(value: T)

  /** The board every game starts from. */
  const EmptyBoard: Board := [Empty, Empty, Empty, Empty, Empty, Empty, Empty, Empty, Empty]

  /** The player whose turn follows p's. */
  function Other(p: Player): (q: Player)
    ensures q != p
  {
    if p == X then O else X
  }

  /** The k-th winning triple, in the order the source lists them:
      three rows, three columns, two diagonals. */
  function Line(k: nat): (t: (nat, nat, nat))
    requires k < 8
    ensures t.0 < 9 && t.1 < 9 && t.2 < 9
  {
    [(0, 1, 2), (3, 4, 5), (6, 7, 8), (0, 3, 6), (1, 4, 7), (2, 5, 8), (0, 4, 8), (2, 4, 6)][k]
  }

  /** Triple k holds the mark m in all three of its cells. */
  predicate LineOf(b: Board, k: nat, m: Cell)
    requires k < 8
  {
    m != Empty && b[Line(k).0] == m && b[Line(k).1] == m && b[Line(k).2] == m
  }

  /** Triple k is non-empty and uniform: the test applied to each pattern. */
  predicate Complete(b: Board, k: nat)
    requires k < 8
  {
    LineOf(b, k, b[Line(k).0])
  }

  /** The scan of the patterns from the k-th on, returning at the first complete one. */
  function WinnerFrom(b: Board, k: nat): (r: Option<Cell>)
    requires k <= 8
    decreases 8 - k
    ensures r.None? <==> forall j :: k <= j < 8 ==> !Complete(b, j)
    ensures r.Some? ==>
      exists j :: k <= j < 8 && LineOf(b, j, r.value) && forall i :: k <= i < j ==> !Complete(b, i)
  {
    if k == 8 then None
    else if Complete(b, k) then assert LineOf(b, k, b[Line(k).0]); Some(b[Line(k).0])
    else WinnerFrom(b, k + 1)
  }

  /** checkWinner: the mark of the first complete triple, or None (null). */
  function CheckWinner(b: Board): (r: Option<Cell>)
    ensures r.None? <==> forall k :: 0 <= k < 8 ==> !Complete(b, k)
    ensures r.Some? ==> r.value != Empty
  {
    WinnerFrom(b, 0)
  }

  /** CheckWinner returns m exactly when m fills the first complete triple in
      the listed order; in particular it never reports a mixed or empty triple. */
  lemma WinnerIsFirstCompleteLine(b: Board, m: Cell)
    ensures CheckWinner(b) == Some(m) <==>
      exists k :: 0 <= k < 8 && LineOf(b, k, m) && forall j :: 0 <= j < k ==> !Complete(b, j)
  {
    if k :| 0 <= k < 8 && LineOf(b, k, m) && forall j :: 0 <= j < k ==> !Complete(b, j) {
      assert Complete(b, k);
      var w := CheckWinner(b);
      var j :| 0 <= j < 8 && LineOf(b, j, w.value) && forall i :: 0 <= i < j ==> !Complete(b, i);
      assert Complete(b, j);
      assert j == k;
    }
  }

  /** board.every(cell => cell !== ''). */
  predicate IsFull(b: Board)
  {
    forall i :: 0 <= i < 9 ==> b[i] != Empty
  }

  /** The game is over: someone has won or no cell is free. */
  predicate IsTerminal(b: Board)
  {
    CheckWinner(b).Some? || IsFull(b)
  }

  /** The number of free cells; it measures how much of the game is left. */
  function EmptyCount(b: Board): nat
  {
    multiset(b)[Empty]
  }

  lemma {:induction false} CountAtMostLength(s: seq<Cell>)
    ensures multiset(s)[Empty] <= |s|
  {
    if s != [] {
      assert s == s[..|s| - 1] + [s[|s| - 1]];
      CountAtMostLength(s[..|s| - 1]);
    }
  }

  /** At most nine cells are free, and none is free exactly when the board is full. */
  lemma EmptyCountBounds(b: Board)
    ensures EmptyCount(b) <= 9
    ensures EmptyCount(b) == 0 <==> IsFull(b)
  {
    CountAtMostLength(b);
    assert IsFull(b) <==> Empty !in b;
  }

  /** Putting a mark on a free cell frees one cell fewer. */
  lemma PlaceFillsOne(b: Board, i: nat, m: Player)
    requires i < 9 && b[i] == Empty
    ensures EmptyCount(b[i := m]) == EmptyCount(b) - 1
  {
  }

  /** The indices from i on whose cells are free, in ascending order. */
  function MovesFrom(b: Board, i: nat): (r: seq<nat>)
    requires i <= 9
    decreases 9 - i
    ensures forall j :: 0 <= j < |r| ==> i <= r[j] < 9 && b[r[j]] == Empty
    ensures forall p :: i <= p < 9 && b[p] == Empty ==> p in r
    ensures forall j, k :: 0 <= j < k < |r| ==> r[j] < r[k]
  {
    if i == 9 then []
    else if b[i] == Empty then [i] + MovesFrom(b, i + 1)
    else MovesFrom(b, i + 1)
  }

  /** availableMoves: every free index exactly once, in strictly ascending order. */
  function AvailableMoves(b: Board): (r: seq<nat>)
    ensures forall j :: 0 <= j < |r| ==> r[j] < 9 && b[r[j]] == Empty
    ensures forall p :: 0 <= p < 9 && b[p] == Empty ==> p in r
    ensures forall j, k :: 0 <= j < k < |r| ==> r[j] < r[k]
  {
    MovesFrom(b, 0)
  }

  lemma {:induction false} MovesFromCount(b: Board, i: nat)
    requires i <= 9
    decreases 9 - i
    ensures |MovesFrom(b, i)| == multiset(b[i..])[Empty]
  {
    if i < 9 {
      assert b[i..] == [b[i]] + b[i + 1..];
      MovesFromCount(b, i + 1);
    }
  }

  /** There are as many available moves as free cells, so the list is empty
      exactly when the board is full. */
  lemma AvailableMovesCount(b: Board)
    ensures |AvailableMoves(b)| == EmptyCount(b)
    ensures AvailableMoves(b) == [] <==> IsFull(b)
  {
    MovesFromCount(b, 0);
    assert b[0..] == b;
    EmptyCountBounds(b);
  }
}
