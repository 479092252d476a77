/** pretty_print_board of agents/common.py: the board as nine lines of text. */
module Render {
  import opened Board

  /** The frame line above and below the cells. */
  const Border: string := "|==============|"

  /** The line of column numbers under the board. */
  const Footer: string := "|0 1 2 3 4 5 6 |"

  /** The two characters that show one cell. */
  function CellText(p: Piece): (s: string)
    ensures |s| == 2
  {
    match p
    case NoPlayer => "  "
    case Player1 => "X "
    case Player2 => "O "
  }

  /** The cells of a row, two characters each, left to right. */
  function Cells(row: seq<Piece>): (s: string)
    ensures |s| == 2 * |row|
    ensures forall c :: 0 <= c < |row| ==> s[2 * c..2 * c + 2] == CellText(row[c])
  {
    if row == [] then ""
    else
      var rest := Cells(row[1..]);
      var s := CellText(row[0]) + rest;
      assert forall c :: 1 <= c < |row| ==> s[2 * c..2 * c + 2] == rest[2 * (c - 1)..2 * (c - 1) + 2];
      s
  }

  /** One rendered board row: the cells between two bars. */
  function RowText(row: seq<Piece>): (s: string)
    ensures |s| == 2 * |row| + 2
    ensures s[0] == '|' && s[|s| - 1] == '|'
    ensures forall c :: 0 <= c < |row| ==> s[2 * c + 1..2 * c + 3] == CellText(row[c])
  {
    var cells := Cells(row);
    var s := "|" + cells + "|";
    assert forall c :: 0 <= c < |row| ==> s[2 * c + 1..2 * c + 3] == cells[2 * c..2 * c + 2];
    s
  }

  /** Different rows of the same width render differently: the rendering loses nothing. */
  lemma RowTextInjective(r1: seq<Piece>, r2: seq<Piece>)
    requires |r1| == |r2| && RowText(r1) == RowText(r2)
    ensures r1 == r2
  {
    forall c | 0 <= c < |r1|
      ensures r1[c] == r2[c]
    {
      assert CellText(r1[c]) == RowText(r1)[2 * c + 1..2 * c + 3] == CellText(r2[c]);
      assert CellText(r1[c])[0] == CellText(r2[c])[0];
    }
  }

  /**
   * pretty_print_board: fills a list of nine lines by index.  Lines 0 and
   * 7 are the frame, line 8 the column numbers, and line i (1..6) shows
   * board row 6 - i, so that board[0][0] appears at the lower left.  The
   * source returns this list, not one string.
   */
  method PrettyPrintBoard(board: Board) returns (lines: seq<string>)
    ensures |lines| == 9
    ensures lines[0] == Border && lines[7] == Border && lines[8] == Footer
    ensures forall i :: 1 <= i <= Rows ==> lines[i] == RowText(board[Rows - i])
    ensures forall i :: 0 <= i < |lines| ==> |lines[i]| == 2 * Columns + 2
  {
    var prettyBoard := new string[9](_ => "");
    prettyBoard[0] := Border;
    prettyBoard[7] := Border;
    prettyBoard[8] := Footer;
    var i := 1;
    while i <= Rows
      invariant 1 <= i <= Rows + 1
      invariant prettyBoard[0] == Border && prettyBoard[7] == Border && prettyBoard[8] == Footer
      invariant forall k :: 1 <= k < i ==> prettyBoard[k] == RowText(board[Rows - k])
    {
      prettyBoard[i] := RowText(board[Rows - i]);
      i := i + 1;
    }
    lines := prettyBoard[..];
  }

  /** Boards whose rendered rows agree are the same board. */
  lemma RenderingDeterminesBoard(b1: Board, b2: Board)
    requires forall r :: 0 <= r < Rows ==> RowText(b1[r]) == RowText(b2[r])
    ensures b1 == b2
  {
    forall r | 0 <= r < Rows
      ensures b1[r] == b2[r]
    {
      RowTextInjective(b1[r], b2[r]);
    }
  }
}
