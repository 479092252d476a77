/**
 * The positional heuristic of agents/agent_minimax/agent_minimax.py: a
 * centre-column bonus, a row-parity bonus and a score for every line of
 * four cells on the board, all in integers.
 */
module Heuristic {
  import opened Board
  import opened Lines

  /** The centre column int(7 / 2). */
  const CenterColumn: Column := Columns / 2

  /** The pieces of column c from the bottom up (board[:, c]). */
  function ColumnCells(b: Board, c: Column): (cells: seq<Piece>)
    ensures |cells| == Rows
    ensures forall r :: 0 <= r < Rows ==> cells[r] == b[r][c]
  {
    seq(Rows, r requires 0 <= r < Rows => b[r][c])
  }

  // ---------------------------------------------------------------------
  // center_column_score

  /** center_column_score: three points for each of player's pieces in the centre column. */
  function CenterColumnScore(b: Board, player: Piece): (score: nat)
    ensures score == 3 * |set r | 0 <= r < Rows && b[r][CenterColumn] == player|
  {
    var cells := ColumnCells(b, CenterColumn);
    CountIsCardinality(cells, player);
    assert Positions(cells, player) == set r | 0 <= r < Rows && b[r][CenterColumn] == player;
    3 * Count(cells, player)
  }

  // ---------------------------------------------------------------------
  // even_odd_row_scores

  /** The first row even_odd_row_scores counts: 0 for PLAYER1, 1 for anything else. */
  function ParityStart(player: Piece): nat
  {
    if player == Player1 then 0 else 1
  }

  /** player's pieces in rows row, row + 2, row + 4, ... of the board. */
  function ParityRows(b: Board, player: Piece, row: nat): nat
    decreases Rows - row
  {
    if row >= Rows then 0 else Count(b[row], player) + ParityRows(b, player, row + 2)
  }

  /** The specification of even_odd_row_scores. */
  function ParityScore(b: Board, player: Piece): nat
  {
    2 * ParityRows(b, player, ParityStart(player))
  }

  /**
   * even_odd_row_scores: two points for each of player's pieces in rows
   * 0, 2, 4 when player is PLAYER1, and in rows 1, 3, 5 otherwise.
   */
  method EvenOddRowScores(b: Board, player: Piece) returns (score: int)
    ensures score == ParityScore(b, player)
    ensures var s := ParityStart(player);
      score == 2 * (Count(b[s], player) + Count(b[s + 2], player) + Count(b[s + 4], player))
  {
    score := 0;
    var start := if player == Player1 then 0 else 1;
    var row := start;
    while row < Rows
      invariant start <= row <= Rows + 1
      invariant score + 2 * ParityRows(b, player, row) == 2 * ParityRows(b, player, start)
      decreases Rows - row
    {
      var rowScore := Count(b[row], player);
      score := score + rowScore * 2;
      row := row + 2;
    }
    assert ParityRows(b, player, start + 4) == Count(b[start + 4], player);
  }

  // ---------------------------------------------------------------------
  // adjacent_score

  /**
   * adjacent_score: 10000 for four of player's pieces, else 40 for three
   * and an empty cell, else 5 for two and two empty cells; then -60 more
   * when the opponent has three and the fourth cell is empty.
   */
  function AdjacentScore(window: seq<Piece>, player: Player): int
  {
    var own := Count(window, player);
    var empty := Count(window, NoPlayer);
    var opponent := Count(window, Opponent(player));
    (if own == 4 then 10000
     else if own == 3 && empty == 1 then 40
     else if own == 2 && empty == 2 then 5
     else 0)
    + (if opponent == 3 && empty == 1 then -60 else 0)
  }

  /** The score depends only on how many pieces of each kind the window holds, not on their order. */
  lemma AdjacentScorePermutation(w1: seq<Piece>, w2: seq<Piece>, player: Player)
    requires multiset(w1) == multiset(w2)
    ensures AdjacentScore(w1, player) == AdjacentScore(w2, player)
  {
    CountIsMultiplicity(w1, player);
    CountIsMultiplicity(w2, player);
    CountIsMultiplicity(w1, NoPlayer);
    CountIsMultiplicity(w2, NoPlayer);
    CountIsMultiplicity(w1, Opponent(player));
    CountIsMultiplicity(w2, Opponent(player));
  }

  /**
   * On a line of four: the full score exactly for four own pieces, a
   * negative score exactly for an opponent threat (three and an empty
   * cell), which then costs 60, and never more than 10000 or less than -60.
   */
  lemma AdjacentScoreMeaning(window: seq<Piece>, player: Player)
    requires |window| == 4
    ensures -60 <= AdjacentScore(window, player) <= 10000
    ensures AdjacentScore(window, player) == 10000 <==> Count(window, player) == 4
    ensures AdjacentScore(window, player) < 0 <==>
      Count(window, Opponent(player)) == 3 && Count(window, NoPlayer) == 1
    ensures AdjacentScore(window, player) < 0 ==> AdjacentScore(window, player) == -60
  {
    CountsPartition(window);
  }

  /** A line of four empty cells scores nothing. */
  lemma EmptyWindowScoresZero(window: seq<Piece>, player: Player)
    requires forall k :: 0 <= k < |window| ==> window[k] == NoPlayer
    ensures AdjacentScore(window, player) == 0
  {
    CountAbsent(window, player);
    CountAbsent(window, Opponent(player));
  }

  // ---------------------------------------------------------------------
  // heuristic

  /** The sum of adjacent_score over the windows ws, in order. */
  function WindowsScore(b: Board, player: Player, ws: seq<Window>): int
    requires forall i :: 0 <= i < |ws| ==> InBoard(ws[i])
  {
    if ws == [] then 0
    else WindowsScore(b, player, ws[..|ws| - 1]) + AdjacentScore(WindowCells(b, ws[|ws| - 1]), player)
  }

  /** The specification of heuristic: centre bonus, parity bonus and the score of all 69 lines. */
  function HeuristicValue(b: Board, player: Player): int
  {
    CenterColumnScore(b, player) + ParityScore(b, player) + WindowsScore(b, player, AllWindows())
  }

  /** Scoring one more window adds its adjacent_score. */
  lemma WindowsScoreStep(b: Board, player: Player, ws: seq<Window>, i: nat)
    requires i < |ws| && forall j :: 0 <= j < |ws| ==> InBoard(ws[j])
    ensures WindowsScore(b, player, ws[..i + 1])
         == WindowsScore(b, player, ws[..i]) + AdjacentScore(WindowCells(b, ws[i]), player)
  {
    assert ws[..i + 1][..i] == ws[..i];
  }

  /** The score of two runs of windows one after the other is the sum of their scores. */
  lemma {:induction false} WindowsScoreAppend(b: Board, player: Player, ws: seq<Window>, vs: seq<Window>)
    requires forall i :: 0 <= i < |ws| ==> InBoard(ws[i])
    requires forall i :: 0 <= i < |vs| ==> InBoard(vs[i])
    ensures forall i :: 0 <= i < |ws + vs| ==> InBoard((ws + vs)[i])
    ensures WindowsScore(b, player, ws + vs) == WindowsScore(b, player, ws) + WindowsScore(b, player, vs)
    decreases |vs|
  {
    if vs == [] {
      assert ws + vs == ws;
    } else {
      var n := |vs| - 1;
      WindowsScoreAppend(b, player, ws, vs[..n]);
      assert (ws + vs)[..|ws + vs| - 1] == ws + vs[..n];
    }
  }

  /**
   * One step of each of heuristic's four loops: the list it builds at
   * (row, col) holds the cells of the next window of that direction, so
   * adding its adjacent_score extends the sum by that window.
   */
  lemma HorizontalStep(b: Board, player: Player, row: nat, col: nat)
    requires row < Rows && col <= Columns - 4
    ensures WindowsScore(b, player, HorizontalWindows()[..row * 4 + col + 1])
         == WindowsScore(b, player, HorizontalWindows()[..row * 4 + col]) + AdjacentScore(b[row][col..col + 4], player)
  {
    var ws := HorizontalWindows();
    var w := Window(Horizontal, row, col);
    assert ws[row * 4 + col] == w;
    WindowsScoreStep(b, player, ws, row * 4 + col);
    assert b[row][col..col + 4] == WindowCells(b, w);
  }

  lemma VerticalStep(b: Board, player: Player, row: nat, col: Column)
    requires row <= Rows - 4
    ensures WindowsScore(b, player, VerticalWindows()[..col * 3 + row + 1])
         == WindowsScore(b, player, VerticalWindows()[..col * 3 + row])
          + AdjacentScore(ColumnCells(b, col)[row..row + 4], player)
  {
    var ws := VerticalWindows();
    var w := Window(Vertical, row, col);
    assert ws[col * 3 + row] == w;
    WindowsScoreStep(b, player, ws, col * 3 + row);
    assert ColumnCells(b, col)[row..row + 4] == WindowCells(b, w);
  }

  /** The cells of the rising diagonal from (row, col), as heuristic lists them. */
  lemma RisingCells(b: Board, row: nat, col: nat)
    requires row <= Rows - 4 && col <= Columns - 4
    ensures InBoard(Window(Rising, row, col))
    ensures WindowCells(b, Window(Rising, row, col)) == [b[row][col], b[row + 1][col + 1], b[row + 2][col + 2], b[row + 3][col + 3]]
  {
    var w := Window(Rising, row, col);
    InBoardBounds(w);
    var cells := WindowCells(b, w);
    assert cells[0] == b[row][col] && cells[1] == b[row + 1][col + 1] && cells[2] == b[row + 2][col + 2] && cells[3] == b[row + 3][col + 3];
  }

  /** The cells of the falling diagonal whose cell 0 is (row + 3, col), as heuristic lists them. */
  lemma FallingCells(b: Board, row: nat, col: nat)
    requires row <= Rows - 4 && col <= Columns - 4
    ensures InBoard(Window(Falling, row, col))
    ensures WindowCells(b, Window(Falling, row, col)) == [b[row + 3][col], b[row + 2][col + 1], b[row + 1][col + 2], b[row][col + 3]]
  {
    var w := Window(Falling, row, col);
    InBoardBounds(w);
    var cells := WindowCells(b, w);
    assert cells[0] == b[row + 3][col] && cells[1] == b[row + 2][col + 1] && cells[2] == b[row + 1][col + 2] && cells[3] == b[row][col + 3];
  }

  /** Diagonal number row * 4 + col starts at (row, col). */
  lemma DiagonalAt(row: nat, col: nat)
    requires row <= Rows - 4 && col <= Columns - 4
    ensures RisingWindows()[row * 4 + col] == Window(Rising, row, col)
    ensures FallingWindows()[row * 4 + col] == Window(Falling, row, col)
  {
    var i := row * 4 + col;
    assert i / 4 == row && i % 4 == col;
  }

  lemma RisingStep(b: Board, player: Player, row: nat, col: nat)
    requires row <= Rows - 4 && col <= Columns - 4
    ensures WindowsScore(b, player, RisingWindows()[..row * 4 + col + 1])
         == WindowsScore(b, player, RisingWindows()[..row * 4 + col])
          + AdjacentScore([b[row][col], b[row + 1][col + 1], b[row + 2][col + 2], b[row + 3][col + 3]], player)
  {
    DiagonalAt(row, col);
    RisingCells(b, row, col);
    WindowsScoreStep(b, player, RisingWindows(), row * 4 + col);
  }

  lemma FallingStep(b: Board, player: Player, row: nat, col: nat)
    requires row <= Rows - 4 && col <= Columns - 4
    ensures WindowsScore(b, player, FallingWindows()[..row * 4 + col + 1])
         == WindowsScore(b, player, FallingWindows()[..row * 4 + col])
          + AdjacentScore([b[row + 3][col], b[row + 2][col + 1], b[row + 1][col + 2], b[row][col + 3]], player)
  {
    DiagonalAt(row, col);
    FallingCells(b, row, col);
    WindowsScoreStep(b, player, FallingWindows(), row * 4 + col);
  }

  /** heuristic's first loop: adjacent_score of every horizontal line, row by row, added to acc. */
  method AddHorizontal(board: Board, player: Player, acc: int) returns (score: int)
    ensures score == acc + WindowsScore(board, player, HorizontalWindows())
  {
    ghost var ws := HorizontalWindows();
    score := acc;
    var row := 0;
    while row < Rows
      invariant 0 <= row <= Rows
      invariant score == acc + WindowsScore(board, player, ws[..row * 4])
    {
      var cells := board[row];
      var col := 0;
      while col < Columns - 3
        invariant 0 <= col <= Columns - 3
        invariant score == acc + WindowsScore(board, player, ws[..row * 4 + col])
      {
        var adjacentFour := cells[col..col + 4];
        HorizontalStep(board, player, row, col);
        score := score + AdjacentScore(adjacentFour, player);
        col := col + 1;
      }
      row := row + 1;
    }
    assert ws[..24] == ws;
  }

  /** heuristic's second loop: every vertical line, column by column. */
  method AddVertical(board: Board, player: Player, acc: int) returns (score: int)
    ensures score == acc + WindowsScore(board, player, VerticalWindows())
  {
    ghost var ws := VerticalWindows();
    score := acc;
    var col := 0;
    while col < Columns
      invariant 0 <= col <= Columns
      invariant score == acc + WindowsScore(board, player, ws[..col * 3])
    {
      var cells := ColumnCells(board, col);
      var row := 0;
      while row < Rows - 3
        invariant 0 <= row <= Rows - 3
        invariant score == acc + WindowsScore(board, player, ws[..col * 3 + row])
      {
        var adjacentFour := cells[row..row + 4];
        VerticalStep(board, player, row, col);
        score := score + AdjacentScore(adjacentFour, player);
        row := row + 1;
      }
      col := col + 1;
    }
    assert ws[..21] == ws;
  }

  /** heuristic's third loop: every rising diagonal, row by row. */
  method AddRising(board: Board, player: Player, acc: int) returns (score: int)
    ensures score == acc + WindowsScore(board, player, RisingWindows())
  {
    ghost var ws := RisingWindows();
    score := acc;
    var row := 0;
    while row < Rows - 3
      invariant 0 <= row <= Rows - 3
      invariant score == acc + WindowsScore(board, player, ws[..row * 4])
    {
      var col := 0;
      while col < Columns - 3
        invariant 0 <= col <= Columns - 3
        invariant score == acc + WindowsScore(board, player, ws[..row * 4 + col])
      {
        var adjacentFour := [board[row][col], board[row + 1][col + 1], board[row + 2][col + 2], board[row + 3][col + 3]];
        RisingStep(board, player, row, col);
        score := score + AdjacentScore(adjacentFour, player);
        col := col + 1;
      }
      row := row + 1;
    }
    assert ws[..12] == ws;
  }

  /** heuristic's fourth loop: every falling diagonal, row by row. */
  method AddFalling(board: Board, player: Player, acc: int) returns (score: int)
    ensures score == acc + WindowsScore(board, player, FallingWindows())
  {
    ghost var ws := FallingWindows();
    score := acc;
    var row := 0;
    while row < Rows - 3
      invariant 0 <= row <= Rows - 3
      invariant score == acc + WindowsScore(board, player, ws[..row * 4])
    {
      var col := 0;
      while col < Columns - 3
        invariant 0 <= col <= Columns - 3
        invariant score == acc + WindowsScore(board, player, ws[..row * 4 + col])
      {
        var adjacentFour := [board[row + 3][col], board[row + 2][col + 1], board[row + 1][col + 2], board[row][col + 3]];
        FallingStep(board, player, row, col);
        score := score + AdjacentScore(adjacentFour, player);
        col := col + 1;
      }
      row := row + 1;
    }
    assert ws[..12] == ws;
  }

  /**
   * heuristic: starts from the centre and parity bonuses and adds
   * adjacent_score for every horizontal line (row by row), every vertical
   * line (column by column) and every rising and falling diagonal (row by
   * row), each taken as the list of its four cells.
   */
  method Heuristic(board: Board, player: Player) returns (score: int)
    ensures score == HeuristicValue(board, player)
  {
    score := 0;
    var center := CenterColumnScore(board, player);
    score := score + center;
    var parity := EvenOddRowScores(board, player);
    score := score + parity;
    score := AddHorizontal(board, player, score);
    score := AddVertical(board, player, score);
    score := AddRising(board, player, score);
    score := AddFalling(board, player, score);
    var h, v, r, f := HorizontalWindows(), VerticalWindows(), RisingWindows(), FallingWindows();
    WindowsScoreAppend(board, player, h, v);
    WindowsScoreAppend(board, player, h + v, r);
    WindowsScoreAppend(board, player, h + v + r, f);
  }

  /** Windows that all score zero add up to zero. */
  lemma {:induction false} WindowsScoreZero(b: Board, player: Player, ws: seq<Window>)
    requires forall i :: 0 <= i < |ws| ==> InBoard(ws[i])
    requires forall i :: 0 <= i < |ws| ==> AdjacentScore(WindowCells(b, ws[i]), player) == 0
    ensures WindowsScore(b, player, ws) == 0
  {
    if ws != [] {
      WindowsScoreZero(b, player, ws[..|ws| - 1]);
    }
  }

  /** heuristic gives 0 on the empty board. */
  lemma EmptyBoardScoresZero(player: Player)
    ensures HeuristicValue(InitializeGameState(), player) == 0
  {
    var b := InitializeGameState();
    var ws := AllWindows();
    forall i | 0 <= i < |ws|
      ensures AdjacentScore(WindowCells(b, ws[i]), player) == 0
    {
      EmptyWindowScoresZero(WindowCells(b, ws[i]), player);
    }
    WindowsScoreZero(b, player, ws);
    assert (set r | 0 <= r < Rows && b[r][CenterColumn] == player) == {};
    CountAbsent(b[0], player);
    CountAbsent(b[1], player);
    CountAbsent(b[2], player);
    CountAbsent(b[3], player);
    CountAbsent(b[4], player);
    CountAbsent(b[5], player);
  }
}
