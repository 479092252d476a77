/**
 * The Connect-Four board of agents/common.py: a grid of 6 rows and 7 columns
 * of BoardPiece values, row 0 being the bottom row into which pieces fall
 * first.  Boards are values here (every search works on its own copy, as
 * the source does with np.copy and deepcopy); the one operation the source
 * performs in place on an array, apply_player_action, is also given as a
 * method on `array2`.
 */
module Board {

  /** BoardPiece: NO_PLAYER (0), PLAYER1 (1), PLAYER2 (2). */
  datatype Piece = NoPlayer | Player1 | Player2

  /** A piece that belongs to one of the two players; agents are only ever called with one. */
  type Player = p: Piece | p != NoPlayer witness Player1

  const Rows: nat := 6
  const Columns: nat := 7

  /** A 6 x 7 board, indexed board[row][column]. */
  type Board = b: seq<seq<Piece>> | |b| == Rows && forall r | 0 <= r < |b| :: |b[r]| == Columns
    witness seq(Rows, _ => seq(Columns, _ => NoPlayer))

  /** A column index (PlayerAction). */
  type Column = c: int | 0 <= c < Columns

  /**
   * The other player.  The source spells this three ways (PLAYER2 if the
   * player is PLAYER1 else PLAYER1, and the reverse); they agree on players.
   */
  function Opponent(p: Player): (q: Player)
    ensures q != p
    ensures p == Player1 <==> q == Player2
  {
    if p == Player1 then Player2 else Player1
  }

  /** Two boards that agree on every cell are equal. */
  lemma BoardsEqual(a: Board, b: Board)
    requires forall r, c :: 0 <= r < Rows && 0 <= c < Columns ==> a[r][c] == b[r][c]
    ensures a == b
  {
    forall r | 0 <= r < Rows
      ensures a[r] == b[r]
    {
      assert |a[r]| == |b[r]| == Columns;
    }
  }

  // ---------------------------------------------------------------------
  // Counting (Python's list.count)

  /** The number of occurrences of x in s. */
  function Count<T(==)>(s: seq<T>, x: T): (n: nat)
    ensures n <= |s|
  {
    if s == [] then 0 else Count(s[..|s| - 1], x) + (if s[|s| - 1] == x then 1 else 0)
  }

  /** The positions of s holding x. */
  function Positions<T(==)>(s: seq<T>, x: T): set<int>
  {
    set i | 0 <= i < |s| && s[i] == x
  }

  /** Count agrees with the number of positions that hold x. */
  lemma {:induction false} CountIsCardinality<T>(s: seq<T>, x: T)
    ensures Count(s, x) == |Positions(s, x)|
  {
    if s != [] {
      var n := |s| - 1;
      CountIsCardinality(s[..n], x);
      assert n !in Positions(s[..n], x);
      if s[n] == x {
        assert Positions(s, x) == Positions(s[..n], x) + {n};
      } else {
        assert Positions(s, x) == Positions(s[..n], x);
      }
    }
  }

  /** Count agrees with the multiplicity of x in the multiset of s. */
  lemma {:induction false} CountIsMultiplicity<T>(s: seq<T>, x: T)
    ensures Count(s, x) == multiset(s)[x]
  {
    if s != [] {
      var n := |s| - 1;
      CountIsMultiplicity(s[..n], x);
      assert s == s[..n] + [s[n]];
      assert multiset(s) == multiset(s[..n]) + multiset{s[n]};
    }
  }

  /** Replacing one element changes the count by what was removed and what was put in. */
  lemma {:induction false} CountUpdate<T>(s: seq<T>, i: nat, y: T, x: T)
    requires i < |s|
    ensures Count(s[i := y], x)
         == Count(s, x) - (if s[i] == x then 1 else 0) + (if y == x then 1 else 0)
  {
    var n := |s| - 1;
    if i == n {
      assert s[i := y][..n] == s[..n];
    } else {
      CountUpdate(s[..n], i, y, x);
      assert s[i := y][..n] == s[..n][i := y];
    }
  }

  /** A value that does not occur is counted zero times. */
  lemma {:induction false} CountAbsent<T>(s: seq<T>, x: T)
    requires forall i :: 0 <= i < |s| ==> s[i] != x
    ensures Count(s, x) == 0
  {
    if s != [] {
      CountAbsent(s[..|s| - 1], x);
    }
  }

  /** Every cell holds one of the three pieces, so their counts add up to the length. */
  lemma {:induction false} CountsPartition(s: seq<Piece>)
    ensures Count(s, NoPlayer) + Count(s, Player1) + Count(s, Player2) == |s|
  {
    if s != [] {
      var n := |s| - 1;
      CountsPartition(s[..n]);
      assert Count(s, NoPlayer) == Count(s[..n], NoPlayer) + (if s[n] == NoPlayer then 1 else 0);
      assert Count(s, Player1) == Count(s[..n], Player1) + (if s[n] == Player1 then 1 else 0);
      assert Count(s, Player2) == Count(s[..n], Player2) + (if s[n] == Player2 then 1 else 0);
    }
  }

  // ---------------------------------------------------------------------
  // initialize_game_state

  /** The empty board: every one of the 6 x 7 cells holds NO_PLAYER. */
  function InitializeGameState(): (b: Board)
    ensures forall r, c :: 0 <= r < Rows && 0 <= c < Columns ==> b[r][c] == NoPlayer
  {
    seq(Rows, _ => seq(Columns, _ => NoPlayer))
  }

  // ---------------------------------------------------------------------
  // apply_player_action

  /** The lowest row below n of column c whose cell is empty, or n if there is none. */
  function FirstEmptyBelow(b: Board, c: Column, n: nat): (r: nat)
    requires n <= Rows
    ensures r <= n
  {
    if n == 0 then 0
    else
      var r := FirstEmptyBelow(b, c, n - 1);
      if r < n - 1 then r
      else if b[n - 1][c] == NoPlayer then n - 1
      else n
  }

  lemma {:induction false} FirstEmptyBelowSpec(b: Board, c: Column, n: nat)
    requires n <= Rows
    ensures FirstEmptyBelow(b, c, n) < n ==> b[FirstEmptyBelow(b, c, n)][c] == NoPlayer
    ensures forall j {:trigger b[j][c]} :: 0 <= j < FirstEmptyBelow(b, c, n) ==> b[j][c] != NoPlayer
  {
    if n > 0 {
      FirstEmptyBelowSpec(b, c, n - 1);
    }
  }

  /** The lowest open row of column c: Rows when the column is full. */
  function LowestOpenRow(b: Board, c: Column): (r: nat)
    ensures r <= Rows
    ensures r < Rows ==> b[r][c] == NoPlayer
    ensures forall j {:trigger b[j][c]} :: 0 <= j < r ==> b[j][c] != NoPlayer
  {
    FirstEmptyBelowSpec(b, c, |b|);
    FirstEmptyBelow(b, c, |b|)
  }

  /** The lowest open row is the only row with the two properties above. */
  lemma LowestOpenRowUnique(b: Board, c: Column, r: nat)
    requires r <= Rows
    requires r < Rows ==> b[r][c] == NoPlayer
    requires forall j :: 0 <= j < r ==> b[j][c] != NoPlayer
    ensures LowestOpenRow(b, c) == r
  {
  }

  /**
   * The board apply_player_action produces.  The update is written without a
   * branch on boards: for a full column it writes the top cell back with the
   * piece it already holds.
   */
  function Drop(b: Board, c: Column, p: Piece): (r: Board)
  {
    var row := LowestOpenRow(b, c);
    var target := if row < Rows then row else Rows - 1;
    b[target := b[target][c := if row < Rows then p else b[target][c]]]
  }

  /**
   * apply_player_action: `p` lands in the lowest open row of column `c`,
   * every other cell keeps its piece, and a full column leaves the board
   * as it is.
   */
  lemma DropCells(b: Board, c: Column, p: Piece)
    ensures LowestOpenRow(b, c) < Rows ==> Drop(b, c, p)[LowestOpenRow(b, c)][c] == p
    ensures forall i, j :: 0 <= i < Rows && 0 <= j < Columns && (i != LowestOpenRow(b, c) || j != c)
              ==> Drop(b, c, p)[i][j] == b[i][j]
    ensures LowestOpenRow(b, c) == Rows ==> Drop(b, c, p) == b
  {
    if LowestOpenRow(b, c) == Rows {
      BoardsEqual(Drop(b, c, p), b);
    }
  }

  /** The board held by a 6 x 7 array. */
  function Contents(a: array2<Piece>): (b: Board)
    requires a.Length0 == Rows && a.Length1 == Columns
    reads a
    ensures forall r, c :: 0 <= r < Rows && 0 <= c < Columns ==> b[r][c] == a[r, c]
  {
    seq(Rows, r requires 0 <= r < Rows reads a =>
      seq(Columns, c requires 0 <= c < Columns reads a => a[r, c]))
  }

  /**
   * apply_player_action, in place: scans the rows of column `action` from
   * the bottom and writes `player` into the first empty cell.
   */
  method ApplyPlayerAction(board: array2<Piece>, action: Column, player: Piece)
    requires board.Length0 == Rows && board.Length1 == Columns
    modifies board
    ensures Contents(board) == Drop(old(Contents(board)), action, player)
  {
    ghost var before := Contents(board);
    var row := 0;
    while row < Rows
      invariant 0 <= row <= Rows
      invariant forall k :: 0 <= k < row ==> board[k, action] != NoPlayer
      invariant Contents(board) == before
    {
      if board[row, action] == NoPlayer {
        LowestOpenRowUnique(before, action, row);
        board[row, action] := player;
        BoardsEqual(Contents(board), Drop(before, action, player));
        break;
      }
      row := row + 1;
    }
    if row == Rows {
      LowestOpenRowUnique(before, action, Rows);
      BoardsEqual(Contents(board), Drop(before, action, player));
    }
  }

  // ---------------------------------------------------------------------
  // No floating pieces

  /** Gravity: a piece above row 0 always sits on another piece. */
  ghost predicate NoFloating(b: Board)
  {
    forall r, c {:trigger b[r][c]} :: 1 <= r < Rows && 0 <= c < Columns && b[r][c] != NoPlayer ==> b[r - 1][c] != NoPlayer
  }

  /** On a board without floating pieces, each column is a stack of LowestOpenRow pieces. */
  lemma {:induction false} ColumnIsStack(b: Board, c: Column, r: nat)
    requires NoFloating(b)
    requires r < Rows
    ensures b[r][c] != NoPlayer <==> r < LowestOpenRow(b, c)
    decreases r
  {
    var l := LowestOpenRow(b, c);
    if r > l {
      ColumnIsStack(b, c, r - 1);
    }
  }

  /**
   * Dropping a piece into an open column of a board without floating
   * pieces keeps that property, grows the column's stack by one and leaves
   * every other column's stack as it was.
   */
  lemma DropKeepsGravity(b: Board, c: Column, p: Player)
    requires NoFloating(b)
    requires LowestOpenRow(b, c) < Rows
    ensures NoFloating(Drop(b, c, p))
    ensures LowestOpenRow(Drop(b, c, p), c) == LowestOpenRow(b, c) + 1
    ensures forall d: Column :: d != c ==> LowestOpenRow(Drop(b, c, p), d) == LowestOpenRow(b, d)
  {
    var row := LowestOpenRow(b, c);
    var b' := Drop(b, c, p);
    forall r, d {:trigger b'[r][d]} | 1 <= r < Rows && 0 <= d < Columns && b'[r][d] != NoPlayer
      ensures b'[r - 1][d] != NoPlayer
    {
      if d == c && r == row {
        assert b[r - 1][d] != NoPlayer;
      }
    }
    LowestOpenRowUnique(b', c, row + 1);
    forall d: Column | d != c
      ensures LowestOpenRow(b', d) == LowestOpenRow(b, d)
    {
      LowestOpenRowUnique(b', d, LowestOpenRow(b, d));
    }
  }

  // ---------------------------------------------------------------------
  // check_open_columns and check_board_full

  /** The indices below n at which the row top is empty, in ascending order (argwhere). */
  function OpenIn(top: seq<Piece>, n: nat): (cols: seq<Column>)
    requires n <= |top| <= Columns
  {
    if n == 0 then []
    else OpenIn(top, n - 1) + (if top[n - 1] == NoPlayer then [(n - 1) as Column] else [])
  }

  lemma {:induction false} OpenInMembers(top: seq<Piece>, n: nat)
    requires n <= |top| <= Columns
    ensures forall i :: 0 <= i < |OpenIn(top, n)| ==> OpenIn(top, n)[i] < n
    ensures forall d :: 0 <= d < n ==> (d in OpenIn(top, n) <==> top[d] == NoPlayer)
  {
    if n > 0 {
      OpenInMembers(top, n - 1);
    }
  }

  /** argwhere lists its indices in strictly ascending order. */
  lemma {:induction false} OpenInAscending(top: seq<Piece>, n: nat)
    requires n <= |top| <= Columns
    ensures forall i, j :: 0 <= i < j < |OpenIn(top, n)| ==> OpenIn(top, n)[i] < OpenIn(top, n)[j]
  {
    if n > 0 {
      OpenInMembers(top, n - 1);
      OpenInAscending(top, n - 1);
    }
  }

  /**
   * check_open_columns: the columns whose cell in the top row (row 5) is
   * empty.
   */
  function OpenColumns(b: Board): (cols: seq<Column>)
  {
    var top := b[|b| - 1];
    OpenIn(top, |top|)
  }

  lemma OpenColumnsMembers(b: Board)
    ensures forall d :: 0 <= d < Columns ==> (d in OpenColumns(b) <==> b[Rows - 1][d] == NoPlayer)
  {
    OpenInMembers(b[Rows - 1], Columns);
  }

  /** check_open_columns lists the open columns in strictly ascending order. */
  lemma OpenColumnsAscending(b: Board)
    ensures forall i, j :: 0 <= i < j < |OpenColumns(b)| ==> OpenColumns(b)[i] < OpenColumns(b)[j]
  {
    OpenInAscending(b[Rows - 1], Columns);
  }

  /** check_board_full: no column is open. */
  predicate IsFull(b: Board)
  {
    |OpenColumns(b)| == 0
  }

  /** No index below n is listed exactly when every cell of top[..n] is occupied. */
  lemma {:induction false} OpenInNone(top: seq<Piece>, n: nat)
    requires n <= |top| <= Columns
    ensures OpenIn(top, n) == [] <==> forall d :: 0 <= d < n ==> top[d] != NoPlayer
  {
    if n > 0 {
      OpenInNone(top, n - 1);
    }
  }

  /** check_board_full: the board is full exactly when every cell of its top row is occupied. */
  lemma FullIffTopRowOccupied(b: Board)
    ensures var top := b[Rows - 1]; IsFull(b) <==> forall c :: 0 <= c < Columns ==> top[c] != NoPlayer
  {
    OpenInNone(b[Rows - 1], Columns);
  }

  /** A column is open exactly when its lowest open row is on the board. */
  lemma OpenIffNotFull(b: Board, c: Column)
    requires NoFloating(b)
    ensures c in OpenColumns(b) <==> LowestOpenRow(b, c) < Rows
  {
    OpenColumnsMembers(b);
    ColumnIsStack(b, c, Rows - 1);
  }

  // ---------------------------------------------------------------------
  // Number of empty cells (the playout measure)

  /** The empty cells in the bottom k rows. */
  function EmptyInRows(b: Board, k: nat): (n: nat)
    requires k <= Rows
    ensures n <= k * Columns
  {
    if k == 0 then 0 else EmptyInRows(b, k - 1) + Count(b[k - 1], NoPlayer)
  }

  /** The number of empty cells of the board. */
  function EmptyCells(b: Board): (n: nat)
    ensures n <= Rows * Columns
  {
    EmptyInRows(b, |b|)
  }

  /** Putting a piece into an empty cell leaves one empty cell fewer in every band of rows above it. */
  lemma {:induction false} FillOneInRows(b: Board, r: nat, c: Column, p: Player, k: nat)
    requires r < Rows && b[r][c] == NoPlayer && k <= Rows
    ensures EmptyInRows(b[r := b[r][c := p]], k) == EmptyInRows(b, k) - (if r < k then 1 else 0)
  {
    if k > 0 {
      FillOneInRows(b, r, c, p, k - 1);
      if k - 1 == r {
        CountUpdate(b[r], c, p, NoPlayer);
      }
    }
  }

  /** Dropping a piece into an open column fills exactly one empty cell. */
  lemma DropFillsOneCell(b: Board, c: Column, p: Player)
    requires c in OpenColumns(b)
    ensures LowestOpenRow(b, c) < Rows
    ensures EmptyCells(Drop(b, c, p)) == EmptyCells(b) - 1
  {
    var row := LowestOpenRow(b, c);
    OpenColumnsMembers(b);
    assert b[Rows - 1][c] == NoPlayer;
    assert row < Rows;
    FillOneInRows(b, row, c, p, Rows);
  }
}
