/** The exported entry points: a board arrives as text, one character per
    cell in row-major order, and is parsed before the engine sees it. */
module Lib {
  import opened Boards
  import Lines
  import Terminal
  import Search

  /** The cell value of one character: its code truncated to a byte, minus
      48 ('0'), wrapping below 0 as a release build's u8 does. */
  function Digit(c: char): Byte
  {
    ((c as int) % 256 - 48) % 256
  }

  /** The board parse_board builds: the first |s| cells from the text, the
      rest left empty. */
  function Parsed(s: string): Board
    requires |s| <= CELLS
  {
    seq(CELLS, i requires 0 <= i < CELLS => if i < |s| then Digit(s[i]) else EMPTY)
  }

  /** The text that describes a board: cell value v as the character
      with code v + 48, so 0, 1, 2 become '0', '1', '2'. */
  function Render(b: Board): (s: string)
    ensures |s| == CELLS
  {
    seq(CELLS, i requires 0 <= i < CELLS => (b[i] as int + 48) as char)
  }

  /** parse_board: a zeroed array, overwritten cell by cell from the text.
      A text longer than the board would index past its end. Cell i is the
      byte of character i less 48 wherever that does not wrap, and every
      cell past the text stays empty. */
  method ParseBoard(s: string) returns (b: Board)
    requires |s| <= CELLS
    ensures b == Parsed(s)
    ensures forall i | 0 <= i < |s| && (s[i] as int) % 256 >= 48 :: b[i] == (s[i] as int) % 256 - 48
    ensures forall i | |s| <= i < CELLS :: b[i] == EMPTY
  {
    var board := new Byte[CELLS](_ => EMPTY);
    for index := 0 to |s|
      invariant forall i | 0 <= i < CELLS :: board[i] == if i < index then Digit(s[i]) else EMPTY
    {
      board[index] := Digit(s[index]);
    }
    b := board[..];
    assert forall i | 0 <= i < CELLS :: b[i] == Parsed(s)[i];
  }

  /** A character survives parse and render exactly when its code is one
      render produces, 48 + v for a byte v. */
  lemma DigitRender(c: char)
    ensures Digit(c) + 48 == c as int <==> 48 <= c as int < 304
  {
    var x := c as int;
    var d := x % 256;
    assert x == 256 * (x / 256) + d;
    if d >= 48 {
      assert Digit(c) == d - 48;
    } else {
      assert Digit(c) == d + 208;
    }
  }

  /** Parsing the text of any board gives the board back. */
  lemma ParseRender(b: Board)
    ensures Parsed(Render(b)) == b
  {
    forall i | 0 <= i < CELLS
      ensures Parsed(Render(b))[i] == b[i]
    {
      var c := Render(b)[i];
      DigitRender(c);
      assert Digit(c) == b[i];
    }
  }

  /** Rendering a parsed text of full length gives the text back exactly
      when every character is one render produces: its code lies in
      48 .. 303. Below '0' the subtraction wraps and the character is lost. */
  lemma RenderParse(s: string)
    requires |s| == CELLS
    ensures Render(Parsed(s)) == s <==> forall i | 0 <= i < CELLS :: 48 <= s[i] as int < 304
  {
    forall i | 0 <= i < CELLS
      ensures Render(Parsed(s))[i] == s[i] <==> 48 <= s[i] as int < 304
    {
      DigitRender(s[i]);
    }
    if Render(Parsed(s)) != s {
      var i :| 0 <= i < CELLS && Render(Parsed(s))[i] != s[i];
    }
  }

  /** The exported solve: parse, then search with `depth` as the ply limit. */
  method Solve(s: string, depth: int) returns (col: nat)
    requires |s| <= CELLS
    requires Search.I32_MIN <= depth <= Search.I32_MAX
    ensures -Search.SCORE_MAX <= Search.RootValue(Parsed(s), Search.AsUsize(depth)) <= Search.SCORE_MAX &&
      col == Search.AsUsize(Search.RootValue(Parsed(s), Search.AsUsize(depth)))
    ensures !IsDraw(Parsed(s)) && !Lines.HasFour(Parsed(s), PLAYER) && depth != 1 ==>
      Legal(Parsed(s), col) &&
      exists i | 0 <= i < |Children(Parsed(s), PLAYER_IA)| ::
        Search.LastBest(Parsed(s), Search.AsUsize(depth), |Children(Parsed(s), PLAYER_IA)|, i) &&
        col == Children(Parsed(s), PLAYER_IA)[i].0
  {
    var b := ParseBoard(s);
    col := Search.Solve(b, depth);
  }

  /** The exported is_game_over: `player` true asks whether the engine's
      side (player 1) has won, false whether its opponent has; a full top
      row ends the game either way. */
  method IsGameOver(s: string, player: bool) returns (over: bool)
    requires |s| <= CELLS
    ensures over == (IsDraw(Parsed(s)) ||
      (player && Lines.HasFour(Parsed(s), PLAYER_IA)) ||
      (!player && Lines.HasFour(Parsed(s), PLAYER)))
  {
    var b := ParseBoard(s);
    over := Terminal.IsGameOver(b, !player);
  }
}
