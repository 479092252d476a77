/**
 * Lines of four cells on the board, the four-in-a-row detector
 * connected_four and the end-state classifier check_end_state of
 * agents/common.py.
 */
module Lines {
  import opened Board

  /** The four orientations of a line of four cells. */
  datatype Direction =
    | Horizontal   // along a row, towards higher columns
    | Vertical     // up a column
    | Rising       // up and to the right
    | Falling      // down and to the right, from the top-left cell

  /** A line of four cells, named by its direction and the row and column of its cell number 0. */
  datatype Window = Window(dir: Direction, row: int, col: int)

  /** The row of cell k (0..3) of w. */
  function CellRow(w: Window, k: int): int
  {
    match w.dir
    case Horizontal => w.row
    case Vertical => w.row + k
    case Rising => w.row + k
    case Falling => w.row + 3 - k
  }

  /** The column of cell k (0..3) of w. */
  function CellCol(w: Window, k: int): int
  {
    match w.dir
    case Horizontal => w.col + k
    case Vertical => w.col
    case Rising => w.col + k
    case Falling => w.col + k
  }

  /** All four cells of w lie on the 6 x 7 board. */
  predicate InBoard(w: Window)
  {
    forall k :: 0 <= k < 4 ==> 0 <= CellRow(w, k) < Rows && 0 <= CellCol(w, k) < Columns
  }

  /** The bounds on the first cell that keep a window on the board, direction by direction. */
  lemma InBoardBounds(w: Window)
    ensures InBoard(w) <==>
      match w.dir
      case Horizontal => 0 <= w.row < Rows && 0 <= w.col <= Columns - 4
      case Vertical => 0 <= w.row <= Rows - 4 && 0 <= w.col < Columns
      case Rising => 0 <= w.row <= Rows - 4 && 0 <= w.col <= Columns - 4
      case Falling => 0 <= w.row <= Rows - 4 && 0 <= w.col <= Columns - 4
  {
    if InBoard(w) {
      assert 0 <= CellRow(w, 0) < Rows && 0 <= CellCol(w, 0) < Columns;
      assert 0 <= CellRow(w, 3) < Rows && 0 <= CellCol(w, 3) < Columns;
    }
  }

  /** The pieces in the four cells of w, in cell order. */
  function WindowCells(b: Board, w: Window): (cells: seq<Piece>)
    requires InBoard(w)
    ensures |cells| == 4
    ensures forall k :: 0 <= k < 4 ==> cells[k] == b[CellRow(w, k)][CellCol(w, k)]
  {
    seq(4, k requires 0 <= k < 4 => b[CellRow(w, k)][CellCol(w, k)])
  }

  /** All four cells of w hold p. */
  predicate Filled(b: Board, w: Window, p: Piece)
    requires InBoard(w)
  {
    forall k :: 0 <= k < 4 ==> b[CellRow(w, k)][CellCol(w, k)] == p
  }

  /** The 24 horizontal lines, row by row, in the order heuristic scores them. */
  function HorizontalWindows(): (ws: seq<Window>)
    ensures |ws| == 24
    ensures forall i :: 0 <= i < |ws| ==> InBoard(ws[i])
  {
    var ws := seq(24, i => Window(Horizontal, i / 4, i % 4));
    forall i | 0 <= i < |ws|
      ensures InBoard(ws[i])
    {
      InBoardBounds(ws[i]);
    }
    ws
  }

  /** The 21 vertical lines, column by column. */
  function VerticalWindows(): (ws: seq<Window>)
    ensures |ws| == 21
    ensures forall i :: 0 <= i < |ws| ==> InBoard(ws[i])
  {
    var ws := seq(21, i => Window(Vertical, i % 3, i / 3));
    forall i | 0 <= i < |ws|
      ensures InBoard(ws[i])
    {
      InBoardBounds(ws[i]);
    }
    ws
  }

  /** The 12 rising diagonals, row by row. */
  function RisingWindows(): (ws: seq<Window>)
    ensures |ws| == 12
    ensures forall i :: 0 <= i < |ws| ==> InBoard(ws[i])
  {
    var ws := seq(12, i => Window(Rising, i / 4, i % 4));
    forall i | 0 <= i < |ws|
      ensures InBoard(ws[i])
    {
      InBoardBounds(ws[i]);
    }
    ws
  }

  /** The 12 falling diagonals, row by row. */
  function FallingWindows(): (ws: seq<Window>)
    ensures |ws| == 12
    ensures forall i :: 0 <= i < |ws| ==> InBoard(ws[i])
  {
    var ws := seq(12, i => Window(Falling, i / 4, i % 4));
    forall i | 0 <= i < |ws|
      ensures InBoard(ws[i])
    {
      InBoardBounds(ws[i]);
    }
    ws
  }

  /** Every line of four on the board, in the order in which heuristic visits them. */
  function AllWindows(): (ws: seq<Window>)
    ensures |ws| == 69
    ensures forall i :: 0 <= i < |ws| ==> InBoard(ws[i])
  {
    HorizontalWindows() + VerticalWindows() + RisingWindows() + FallingWindows()
  }

  /** AllWindows holds exactly the lines of four that lie on the board. */
  lemma AllWindowsExactly(w: Window)
    ensures w in AllWindows() <==> InBoard(w)
  {
    var ws := AllWindows();
    InBoardBounds(w);
    if InBoard(w) {
      match w.dir
      case Horizontal =>
        assert ws[w.row * 4 + w.col] == w;
      case Vertical =>
        assert ws[24 + w.col * 3 + w.row] == w;
      case Rising =>
        assert ws[45 + w.row * 4 + w.col] == w;
      case Falling =>
        assert ws[57 + w.row * 4 + w.col] == w;
    }
  }

  // ---------------------------------------------------------------------
  // connected_four

  /**
   * The four tests connected_four makes at the anchor cell (row, col): a
   * horizontal line to the right, a vertical line upwards, a diagonal up
   * and to the left, and a diagonal up and to the right.  Here the anchor
   * cell itself takes part in every test and the vertical test is limited
   * to the rows 0..2 that have three rows above them.
   */
  predicate FourAt(b: Board, p: Piece, row: int, col: int)
    requires 0 <= row < Rows && 0 <= col < Columns
  {
    || (col <= 3 && b[row][col] == p && b[row][col + 1] == p && b[row][col + 2] == p && b[row][col + 3] == p)
    || (row <= 2 && b[row][col] == p && b[row + 1][col] == p && b[row + 2][col] == p && b[row + 3][col] == p)
    || (row <= 2 && col >= 3 && b[row][col] == p && b[row + 1][col - 1] == p
        && b[row + 2][col - 2] == p && b[row + 3][col - 3] == p)
    || (row <= 2 && col <= 3 && b[row][col] == p && b[row + 1][col + 1] == p
        && b[row + 2][col + 2] == p && b[row + 3][col + 3] == p)
  }

  /** The scan over the anchors from (row, col) on, row by row, stopping at the first line found. */
  predicate ScanFrom(b: Board, p: Piece, row: nat, col: nat)
    requires row <= Rows && col <= Columns
    decreases Rows - row, Columns - col
  {
    if row == Rows then false
    else if col == Columns then ScanFrom(b, p, row + 1, 0)
    else FourAt(b, p, row, col) || ScanFrom(b, p, row, col + 1)
  }

  /**
   * connected_four: true when the tests at some anchor succeed.  The loops
   * of the source only return early, so the order of the scan matters to
   * the result only through ScanFrom, which ScanIsConnectedFour relates.
   */
  predicate ConnectedFour(b: Board, p: Piece)
  {
    exists row, col | 0 <= row < Rows && 0 <= col < Columns :: FourAt(b, p, row, col)
  }

  /** (r, c) is an anchor that the scan from (row, col) still visits. */
  ghost predicate NotYetScanned(r: int, c: int, row: int, col: int)
  {
    0 <= r < Rows && 0 <= c < Columns && ((r == row && col <= c) || row < r)
  }

  /** The scan from (row, col) finds a line exactly when some anchor it visits passes a test. */
  lemma {:induction false} ScanFinds(b: Board, p: Piece, row: nat, col: nat)
    requires row <= Rows && col <= Columns
    ensures ScanFrom(b, p, row, col) <==>
      exists r, c :: NotYetScanned(r, c, row, col) && FourAt(b, p, r, c)
    decreases Rows - row, Columns - col
  {
    if row == Rows {
    } else if col == Columns {
      ScanFinds(b, p, row + 1, 0);
      assert forall r, c :: NotYetScanned(r, c, row, col) <==> NotYetScanned(r, c, row + 1, 0);
    } else {
      ScanFinds(b, p, row, col + 1);
      if FourAt(b, p, row, col) {
        assert NotYetScanned(row, col, row, col);
      }
      forall r, c | NotYetScanned(r, c, row, col) && FourAt(b, p, r, c) && !(r == row && c == col)
        ensures NotYetScanned(r, c, row, col + 1)
      {
      }
    }
  }

  /** The row-by-row scan from the first anchor, with its early return, computes connected_four. */
  lemma ScanIsConnectedFour(b: Board, p: Piece)
    ensures ScanFrom(b, p, 0, 0) == ConnectedFour(b, p)
  {
    ScanFinds(b, p, 0, 0);
    if ConnectedFour(b, p) {
      var r, c :| 0 <= r < Rows && 0 <= c < Columns && FourAt(b, p, r, c);
      assert NotYetScanned(r, c, 0, 0);
    }
  }

  /** The anchor whose tests cover window w. */
  function AnchorCol(w: Window): int
  {
    if w.dir == Falling then w.col + 3 else w.col
  }

  /** A filled window on the board makes the tests at its anchor succeed. */
  lemma FilledWindowAnchor(b: Board, p: Piece, w: Window)
    requires InBoard(w) && Filled(b, w, p)
    ensures 0 <= w.row < Rows && 0 <= AnchorCol(w) < Columns
    ensures FourAt(b, p, w.row, AnchorCol(w))
  {
    InBoardBounds(w);
    assert b[CellRow(w, 0)][CellCol(w, 0)] == p;
    assert b[CellRow(w, 1)][CellCol(w, 1)] == p;
    assert b[CellRow(w, 2)][CellCol(w, 2)] == p;
    assert b[CellRow(w, 3)][CellCol(w, 3)] == p;
  }

  /** A successful test at an anchor shows a filled window on the board. */
  lemma AnchorFilledWindow(b: Board, p: Piece, row: int, col: int) returns (w: Window)
    requires 0 <= row < Rows && 0 <= col < Columns && FourAt(b, p, row, col)
    ensures InBoard(w) && Filled(b, w, p)
  {
    if col <= 3 && b[row][col] == p && b[row][col + 1] == p && b[row][col + 2] == p && b[row][col + 3] == p {
      w := Window(Horizontal, row, col);
    } else if row <= 2 && b[row][col] == p && b[row + 1][col] == p && b[row + 2][col] == p && b[row + 3][col] == p {
      w := Window(Vertical, row, col);
    } else if row <= 2 && col >= 3 && b[row][col] == p && b[row + 1][col - 1] == p
      && b[row + 2][col - 2] == p && b[row + 3][col - 3] == p
    {
      w := Window(Falling, row, col - 3);
    } else {
      w := Window(Rising, row, col);
    }
    InBoardBounds(w);
    FilledByCells(b, p, w);
  }

  /** A window on the board is filled when each of its four cells, named one by one, holds p. */
  lemma FilledByCells(b: Board, p: Piece, w: Window)
    requires InBoard(w)
    requires b[CellRow(w, 0)][CellCol(w, 0)] == p && b[CellRow(w, 1)][CellCol(w, 1)] == p
    requires b[CellRow(w, 2)][CellCol(w, 2)] == p && b[CellRow(w, 3)][CellCol(w, 3)] == p
    ensures Filled(b, w, p)
  {
  }

  /**
   * connected_four's promise: it is true exactly when some horizontal,
   * vertical or diagonal line of four cells on the board holds p in all four.
   */
  lemma ConnectedFourIffFilled(b: Board, p: Piece)
    ensures ConnectedFour(b, p) <==> exists w :: InBoard(w) && Filled(b, w, p)
  {
    if ConnectedFour(b, p) {
      var r, c :| 0 <= r < Rows && 0 <= c < Columns && FourAt(b, p, r, c);
      var w := AnchorFilledWindow(b, p, r, c);
    }
    if w :| InBoard(w) && Filled(b, w, p) {
      FilledWindowAnchor(b, p, w);
    }
  }

  /** The same, over the windows that heuristic scores. */
  lemma ConnectedFourIffFilledWindow(b: Board, p: Piece)
    ensures ConnectedFour(b, p) <==>
      exists i :: 0 <= i < |AllWindows()| && Filled(b, AllWindows()[i], p)
  {
    ConnectedFourIffFilled(b, p);
    var ws := AllWindows();
    if w :| InBoard(w) && Filled(b, w, p) {
      AllWindowsExactly(w);
      var i :| 0 <= i < |ws| && ws[i] == w;
    }
  }

  /** The empty board has no line for anybody. */
  lemma EmptyBoardHasNoFour(p: Player)
    ensures !ConnectedFour(InitializeGameState(), p)
  {
    var b := InitializeGameState();
    ConnectedFourIffFilled(b, p);
    forall w | InBoard(w)
      ensures !Filled(b, w, p)
    {
      assert b[CellRow(w, 0)][CellCol(w, 0)] == NoPlayer;
    }
  }

  /** A board on which p has no piece has no line for p. */
  lemma NoPiecesNoFour(b: Board, p: Player)
    requires forall r, c :: 0 <= r < Rows && 0 <= c < Columns ==> b[r][c] != p
    ensures !ConnectedFour(b, p)
  {
    ConnectedFourIffFilled(b, p);
    forall w | InBoard(w)
      ensures !Filled(b, w, p)
    {
      assert b[CellRow(w, 0)][CellCol(w, 0)] != p;
    }
  }

  /** The board of four PLAYER1 pieces dropped into columns 0..3 of the empty board. */
  function BottomRowOfFour(): Board
  {
    var e := InitializeGameState();
    Drop(Drop(Drop(Drop(e, 0, Player1), 1, Player1), 2, Player1), 3, Player1)
  }

  /** The cells of that board: PLAYER1 in columns 0..3 of row 0, empty elsewhere. */
  lemma BottomRowOfFourCells()
    ensures forall r, c :: 0 <= r < Rows && 0 <= c < Columns ==>
      BottomRowOfFour()[r][c] == if r == 0 && c < 4 then Player1 else NoPlayer
  {
    var e := InitializeGameState();
    var b1 := Drop(e, 0, Player1);
    LowestOpenRowUnique(e, 0, 0);
    var b2 := Drop(b1, 1, Player1);
    LowestOpenRowUnique(b1, 1, 0);
    var b3 := Drop(b2, 2, Player1);
    LowestOpenRowUnique(b2, 2, 0);
    LowestOpenRowUnique(b3, 3, 0);
  }

  /** Four PLAYER1 pieces in columns 0..3 of row 0 are a line for PLAYER1 and none for PLAYER2. */
  lemma BottomRowOfFourWins()
    ensures BottomRowOfFour()[0][..4] == [Player1, Player1, Player1, Player1]
    ensures ConnectedFour(BottomRowOfFour(), Player1)
    ensures !ConnectedFour(BottomRowOfFour(), Player2)
  {
    var b := BottomRowOfFour();
    BottomRowOfFourCells();
    assert FourAt(b, Player1, 0, 0);
    ConnectedFourIffFilled(b, Player1);
    assert Filled(b, Window(Horizontal, 0, 0), Player1);
    NoPiecesNoFour(b, Player2);
  }

  // ---------------------------------------------------------------------
  // connected_four as written in the source

  /** What the loop body of connected_four does at one anchor. */
  datatype Step = Found | Continue | IndexError

  /** The result of connected_four as written: a truth value, or an IndexError raised by numpy. */
  datatype ScanResult = Returned(found: bool) | RaisedIndexError

  /**
   * The loop body of connected_four exactly as written: the anchor cell
   * board[row, col] is never compared, and the vertical test admits row 3,
   * whose third cell board[6, col] is outside the array; Python's `and`
   * evaluates that index only once the two cells below it matched.
   */
  function AnchorAsWritten(b: Board, p: Piece, row: int, col: int): Step
    requires 0 <= row < Rows && 0 <= col < Columns
  {
    if col <= 3 && b[row][col + 1] == p && b[row][col + 2] == p && b[row][col + 3] == p then Found
    else if row == 3 && b[row + 1][col] == p && b[row + 2][col] == p then IndexError
    else if row <= 2 && b[row + 1][col] == p && b[row + 2][col] == p && b[row + 3][col] == p then Found
    else if row <= 2 && col >= 3 && b[row + 1][col - 1] == p && b[row + 2][col - 2] == p
      && b[row + 3][col - 3] == p then Found
    else if row <= 2 && col <= 3 && b[row + 1][col + 1] == p && b[row + 2][col + 2] == p
      && b[row + 3][col + 3] == p then Found
    else Continue
  }

  /** The nested loops of connected_four as written, from anchor (row, col) on. */
  function ScanAsWritten(b: Board, p: Piece, row: nat, col: nat): ScanResult
    requires row <= Rows && col <= Columns
    decreases Rows - row, Columns - col
  {
    if row == Rows then Returned(false)
    else if col == Columns then ScanAsWritten(b, p, row + 1, 0)
    else match AnchorAsWritten(b, p, row, col)
      case Found => Returned(true)
      case IndexError => RaisedIndexError
      case Continue => ScanAsWritten(b, p, row, col + 1)
  }

  /** connected_four as written. */
  function ConnectedFourAsWritten(b: Board, p: Piece): ScanResult
  {
    ScanAsWritten(b, p, 0, 0)
  }

  /** PLAYER1 pieces in columns 1, 2 and 3 of the bottom row and nothing else. */
  function ThreeInBottomRow(): Board
  {
    seq(Rows, r => seq(Columns, c => if r == 0 && 1 <= c <= 3 then Player1 else NoPlayer))
  }

  /** As written, three pieces next to an empty anchor count as four in a row. */
  lemma AsWrittenSkipsAnchor()
    ensures ConnectedFourAsWritten(ThreeInBottomRow(), Player1) == Returned(true)
    ensures !ConnectedFour(ThreeInBottomRow(), Player1)
  {
    var b := ThreeInBottomRow();
    assert AnchorAsWritten(b, Player1, 0, 0) == Found;
    ConnectedFourIffFilled(b, Player1);
    forall w | InBoard(w)
      ensures !Filled(b, w, Player1)
    {
    }
  }

  /** PLAYER1 pieces in rows 4 and 5 of column 0 and nothing else. */
  function TopOfColumnZero(): Board
  {
    seq(Rows, r => seq(Columns, c => if c == 0 && r >= 4 then Player1 else NoPlayer))
  }

  /** The scan of TopOfColumnZero from any anchor up to (3, 0) ends in the IndexError. */
  lemma {:induction false} TopOfColumnZeroScan(row: nat, col: nat)
    requires (row < 3 && col <= Columns) || (row == 3 && col == 0)
    ensures ScanAsWritten(TopOfColumnZero(), Player1, row, col) == RaisedIndexError
    decreases 3 - row, Columns - col
  {
    var b := TopOfColumnZero();
    if row == 3 {
      assert AnchorAsWritten(b, Player1, 3, 0) == IndexError;
    } else if col == Columns {
      TopOfColumnZeroScan(row + 1, 0);
    } else {
      assert AnchorAsWritten(b, Player1, row, col) == Continue;
      TopOfColumnZeroScan(row, col + 1);
    }
  }

  /** As written, two pieces at the top of a column make connected_four index row 6 and raise. */
  lemma AsWrittenIndexesRowSix()
    ensures ConnectedFourAsWritten(TopOfColumnZero(), Player1) == RaisedIndexError
    ensures !ConnectedFour(TopOfColumnZero(), Player1)
  {
    TopOfColumnZeroScan(0, 0);
    var b := TopOfColumnZero();
    ConnectedFourIffFilled(b, Player1);
    forall w | InBoard(w)
      ensures !Filled(b, w, Player1)
    {
    }
  }

  // ---------------------------------------------------------------------
  // check_end_state

  /** GameState: IS_WIN, IS_DRAW, STILL_PLAYING. */
  datatype GameState = IsWin | IsDraw | StillPlaying

  /**
   * check_end_state for `player`: a win when the player has four in a row;
   * otherwise a draw when no column is open (the branch the source leaves
   * as a TODO); otherwise play goes on.
   */
  function CheckEndState(b: Board, player: Piece): (s: GameState)
    ensures s == IsWin <==> ConnectedFour(b, player)
    ensures s == IsDraw <==> !ConnectedFour(b, player) && OpenColumns(b) == []
    ensures s == StillPlaying <==> !ConnectedFour(b, player) && OpenColumns(b) != []
  {
    if ConnectedFour(b, player) then IsWin
    else if IsFull(b) then IsDraw
    else StillPlaying
  }

  /** The empty board is still being played, for either player. */
  lemma EmptyBoardStillPlaying(p: Player)
    ensures CheckEndState(InitializeGameState(), p) == StillPlaying
  {
    EmptyBoardHasNoFour(p);
    var b := InitializeGameState();
    OpenColumnsMembers(b);
    assert 0 in OpenColumns(b);
  }

  // ---------------------------------------------------------------------
  // check_end_state as written in the source

  /** check_end_state as written: with the draw branch left as a TODO, a board without a line is always still played. */
  function CheckEndStateAsWritten(b: Board, player: Piece): GameState
  {
    if ConnectedFour(b, player) then IsWin else StillPlaying
  }

  /**
   * The piece at (r, c) of a full board on which neither player has a
   * line: the rows go in pairs, the colours alternate along each row, and
   * each pair of rows is shifted by one column against the pair below.
   */
  function Colour(r: int, c: int): Piece
  {
    if (r / 2 + c) % 2 == 0 then Player1 else Player2
  }

  /** That board. */
  function FullBoardWithoutLine(): Board
  {
    seq(Rows, r => seq(Columns, c => Colour(r, c)))
  }

  /** Side by side, and diagonally within a pair of rows, the colours differ; so do the rows on either side of a pair boundary. */
  lemma ColourChanges(r: nat, c: int)
    ensures Colour(r, c) != Colour(r, c + 1)
    ensures r % 2 == 0 ==> Colour(r, c) != Colour(r + 1, c + 1) && Colour(r + 1, c) != Colour(r, c + 1)
    ensures r % 2 == 1 ==> Colour(r, c) != Colour(r + 1, c)
  {
    var m := r / 2;
    assert r == 2 * m + r % 2;
    if r % 2 == 0 {
      assert (r + 1) / 2 == m;
    } else {
      assert (r + 1) / 2 == m + 1;
    }
  }

  /** A window with two different pieces side by side is filled by no player. */
  lemma NotFilledWhenCellsDiffer(b: Board, p: Piece, w: Window, k: nat)
    requires InBoard(w) && k < 3
    requires b[CellRow(w, k)][CellCol(w, k)] != b[CellRow(w, k + 1)][CellCol(w, k + 1)]
    ensures !Filled(b, w, p)
  {
  }

  /** A window of FullBoardWithoutLine whose cells k and k + 1 have different colours is filled by no player. */
  lemma ColoursDiffer(p: Piece, w: Window, k: nat)
    requires InBoard(w) && k < 3
    requires Colour(CellRow(w, k), CellCol(w, k)) != Colour(CellRow(w, k + 1), CellCol(w, k + 1))
    ensures !Filled(FullBoardWithoutLine(), w, p)
  {
    var b := FullBoardWithoutLine();
    assert b[CellRow(w, k)][CellCol(w, k)] == Colour(CellRow(w, k), CellCol(w, k));
    assert b[CellRow(w, k + 1)][CellCol(w, k + 1)] == Colour(CellRow(w, k + 1), CellCol(w, k + 1));
    NotFilledWhenCellsDiffer(b, p, w, k);
  }

  /** A cell k of w such that the cells k and k + 1 of FullBoardWithoutLine differ. */
  function ChangeIndex(w: Window): (k: nat)
    ensures k < 3
  {
    var even := w.row % 2 == 0;
    match w.dir
    case Horizontal => 0
    case Vertical => if even then 1 else 0
    case Rising => if even then 0 else 1
    case Falling => if even then 0 else 1
  }

  /** In every window the colours change between the cells ChangeIndex(w) and ChangeIndex(w) + 1. */
  lemma WindowColourChanges(w: Window)
    requires InBoard(w)
    ensures var k := ChangeIndex(w);
      Colour(CellRow(w, k), CellCol(w, k)) != Colour(CellRow(w, k + 1), CellCol(w, k + 1))
  {
    InBoardBounds(w);
    var k := ChangeIndex(w);
    var r0, c0, r1, c1 := CellRow(w, k), CellCol(w, k), CellRow(w, k + 1), CellCol(w, k + 1);
    if w.dir == Falling {
      assert r0 == r1 + 1 && c1 == c0 + 1 && r1 % 2 == 0;
      ColourChanges(r1, c0);
    } else {
      assert r1 == r0 || (r1 == r0 + 1 && (c1 == c0 || c1 == c0 + 1));
      ColourChanges(r0, c0);
    }
  }

  /** No window on FullBoardWithoutLine holds four pieces of one player. */
  lemma FullBoardWindowNotFilled(p: Piece, w: Window)
    requires InBoard(w)
    ensures !Filled(FullBoardWithoutLine(), w, p)
  {
    WindowColourChanges(w);
    ColoursDiffer(p, w, ChangeIndex(w));
  }

  /** Neither player, nor the empty piece, has four in a row on FullBoardWithoutLine. */
  lemma FullBoardWithoutLineHasNoFour(p: Piece)
    ensures !ConnectedFour(FullBoardWithoutLine(), p)
  {
    var b := FullBoardWithoutLine();
    ConnectedFourIffFilled(b, p);
    forall w | InBoard(w)
      ensures !Filled(b, w, p)
    {
      FullBoardWindowNotFilled(p, w);
    }
  }

  /**
   * On a full board without a line check_end_state as written answers
   * STILL_PLAYING, where its documentation promises IS_DRAW.
   */
  lemma AsWrittenNeverDraws()
    ensures IsFull(FullBoardWithoutLine())
    ensures !ConnectedFour(FullBoardWithoutLine(), Player1) && !ConnectedFour(FullBoardWithoutLine(), Player2)
    ensures CheckEndStateAsWritten(FullBoardWithoutLine(), Player1) == StillPlaying
    ensures CheckEndState(FullBoardWithoutLine(), Player1) == IsDraw
  {
    var b := FullBoardWithoutLine();
    FullBoardWithoutLineHasNoFour(Player1);
    FullBoardWithoutLineHasNoFour(Player2);
    FullIffTopRowOccupied(b);
  }
}
