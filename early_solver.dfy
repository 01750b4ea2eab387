/** The earlier engine: the same board, children and run-counting scan as
    the pruning engine, but a plain minimax with strict comparisons, a
    heuristic that is constantly 0, a diagonal range one short, and a solve
    that runs the search and discards its result. */
module EarlySolver {
  import opened Boards
  import opened Lines
  import opened Symmetry
  import Terminal
  import Search

  /** End of the early engine's diagonal range `3 .. WIDTH + HEIGHT - 4`:
      one short of DIAG_END, so diagonal k = 9 is never scanned. */
  const EARLY_DIAG_END: int := WIDTH + HEIGHT - 4

  // ----- game over -----

  /** The early is_game_over: a full top row, or a four of either player on
      a line the shortened scan reaches. */
  predicate GameOver(b: Board)
  {
    IsDraw(b) || ScanWins(b, PLAYER_IA, EARLY_DIAG_END) || ScanWins(b, PLAYER, EARLY_DIAG_END)
  }

  /** is_game_over, testing the draw and then each player in turn. A reported
      end is a real one; the converse fails (see MissedDiagonal). */
  method IsGameOver(b: Board) returns (over: bool)
    ensures over == GameOver(b)
    ensures over ==> IsDraw(b) || HasFour(b, PLAYER_IA) || HasFour(b, PLAYER)
  {
    over := IsDraw(b);
    if !over {
      over := Terminal.PlayerWon(b, PLAYER_IA, EARLY_DIAG_END);
    }
    if !over {
      over := Terminal.PlayerWon(b, PLAYER, EARLY_DIAG_END);
    }
  }

  /** The test treats the two players alike: exchanging them does not change
      whether the game is over. */
  lemma GameOverSwap(b: Board)
    ensures GameOver(Swap(b)) == GameOver(b)
  {
    forall col | 0 <= col < WIDTH
      ensures Top(Swap(b), col) == SwapCell(Top(b, col))
    {
      SwapCellsOf(b, HEIGHT - 1, col);
    }
    assert IsDraw(Swap(b)) == IsDraw(b);
    ScanWinsSwap(b, PLAYER_IA, EARLY_DIAG_END);
    ScanWinsSwap(b, PLAYER, EARLY_DIAG_END);
  }

  // ----- the search -----

  /** evaluate_position: every position is worth 0. */
  function EvaluatePosition(b: Board): int
  {
    0
  }

  /** The lowest legal column at or after `col`; WIDTH when there is none. */
  function LowestLegalFrom(b: Board, col: nat): (c: int)
    requires col <= WIDTH
    decreases WIDTH - col
    ensures col <= c <= WIDTH
    ensures c < WIDTH ==> Legal(b, c)
    ensures forall c' | col <= c' < c :: !Legal(b, c')
  {
    if col == WIDTH then WIDTH
    else if Legal(b, col) then col
    else LowestLegalFrom(b, col + 1)
  }

  /** The first child generate_next_position yields is the lowest legal
      column, whichever player moves. */
  lemma FirstChildIsLowestLegal(b: Board, player: Byte)
    requires !IsDraw(b)
    ensures |Children(b, player)| > 0
    ensures Children(b, player)[0].0 == LowestLegalFrom(b, 0) < WIDTH
  {
    NoChildrenIffDraw(b, player);
    ChildrenAreLegalDrops(b, player);
    var kids := Children(b, player);
    var low := LowestLegalFrom(b, 0);
    assert Legal(b, kids[0].0);
    assert low <= kids[0].0;
    var j :| 0 <= j < |kids| && kids[j].0 == low;
    assert kids[0].0 <= kids[j].0;
  }

  /** What the early minimax returns at the root: 0 when the search stops
      there, otherwise the column of the first child, since every score below
      the root is 0 and only the first child beats the initial score. */
  function RootResult(b: Board, maxDepth: nat): (r: int)
    ensures 0 <= r < WIDTH
  {
    if maxDepth == 1 || GameOver(b) then 0
    else
      FirstChildIsLowestLegal(b, PLAYER_IA);
      LowestLegalFrom(b, 0)
  }

  /** minimax of the early engine. Below the root every result is 0; at the
      root it is RootResult, which is the lowest legal column whenever the
      search goes on. */
  method Minimax(b: Board, depth: nat, maxDepth: nat, maximizing: bool) returns (r: int)
    ensures depth > 0 ==> r == 0
    ensures depth == 0 ==> r == RootResult(b, maxDepth)
    ensures depth == 0 && maxDepth != 1 && !GameOver(b) ==>
      Legal(b, r) && forall c | 0 <= c < r :: !Legal(b, c)
    decreases EmptyCount(b)
  {
    var stop := depth + 1 == maxDepth;
    if !stop {
      stop := IsGameOver(b);
    }
    if stop {
      return EvaluatePosition(b);
    }
    var player := if maximizing then PLAYER_IA else PLAYER;
    FirstChildIsLowestLegal(b, player);
    var column := WIDTH / 2;
    var score: int := if maximizing then Search.I32_MIN else Search.I32_MAX;
    var kids := GenerateNextPosition(b, player);
    for i := 0 to |kids|
      invariant i == 0 ==> column == WIDTH / 2 && score == (if maximizing then Search.I32_MIN else Search.I32_MAX)
      invariant i > 0 ==> column == kids[0].0 && score == 0
    {
      var (col, next) := kids[i];
      ChildrenShrink(b, player, i);
      var newScore := Minimax(next, depth + 1, maxDepth, !maximizing);
      if maximizing && newScore > score {
        score := newScore;
        column := col;
      } else if !maximizing && newScore < score {
        score := newScore;
        column := col;
      }
    }
    if depth == 0 {
      return column;
    }
    return score;
  }

  /** solve: searches from the root with the given player maximizing, then
      discards the search and always answers i32::MAX. */
  method Solve(b: Board, depth: nat, player: Byte) returns (r: int)
    ensures r == Search.I32_MAX
  {
    var _ := Minimax(b, 0, depth, player == PLAYER_IA);
    r := Search.I32_MAX;
  }

  // ----- the missed diagonal -----

  /** Player 1 on (0,3), (1,4), (2,5), (3,6) -- the diagonal k = 9 -- each
      piece resting on player 2's pieces below it. */
  function MissedDiagonalBoard(): Board
  {
    seq(CELLS, i requires 0 <= i < CELLS =>
      var r, c := i / WIDTH, i % WIDTH;
      if c == r + 3 then PLAYER_IA else if c > r + 3 then PLAYER else EMPTY)
  }

  lemma MissedDiagonalCells()
    ensures forall r, c :: OnBoard(r, c) ==>
      Cell(MissedDiagonalBoard(), r, c) ==
        if c == r + 3 then PLAYER_IA else if c > r + 3 then PLAYER else EMPTY
  {
    forall r, c | OnBoard(r, c)
      ensures Cell(MissedDiagonalBoard(), r, c) ==
        if c == r + 3 then PLAYER_IA else if c > r + 3 then PLAYER else EMPTY
    {
      IdxInRange(r, c);
      assert Idx(r, c) / WIDTH == r;
      assert Idx(r, c) % WIDTH == c;
    }
  }

  /** A position that respects gravity, in which player 1 has four in a row
      and nobody has won by the early scan: the early is_game_over answers
      false, where the full range 3 .. DIAG_END reports the win. */
  lemma MissedDiagonal()
    ensures Gravity(MissedDiagonalBoard())
    ensures !IsDraw(MissedDiagonalBoard())
    ensures HasFour(MissedDiagonalBoard(), PLAYER_IA)
    ensures !GameOver(MissedDiagonalBoard())
    ensures ScanWins(MissedDiagonalBoard(), PLAYER_IA, DIAG_END)
  {
    var b := MissedDiagonalBoard();
    MissedDiagonalGravity();
    MissedDiagonalCells();
    assert FourAnyWay(b, PLAYER_IA, 0, 3) by {
      assert FourFrom(b, PLAYER_IA, 0, 3, 1, 1);
    }
    assert Top(b, 0) == EMPTY;
    forall p | p == PLAYER_IA || p == PLAYER
      ensures !ScanWins(b, p, EARLY_DIAG_END)
    {
      NoFourOffDiagonal(b, p);
    }
    ScanComplete(b, PLAYER_IA);
  }

  lemma MissedDiagonalGravity()
    ensures Gravity(MissedDiagonalBoard())
  {
    var b := MissedDiagonalBoard();
    MissedDiagonalCells();
    forall row, col | 0 < row < HEIGHT && 0 <= col < WIDTH && b[Idx(row, col)] != EMPTY
      ensures b[Idx(row - 1, col)] != EMPTY
    {
      assert Cell(b, row, col) != EMPTY;
      assert Cell(b, row - 1, col) != EMPTY;
    }
  }

  /** On MissedDiagonalBoard no line of the early scan holds four. */
  lemma NoFourOffDiagonal(b: Board, p: Byte)
    requires b == MissedDiagonalBoard() && (p == PLAYER_IA || p == PLAYER)
    ensures !ScanWins(b, p, EARLY_DIAG_END)
  {
    MissedDiagonalCells();
    NoStraightFour(b, p);
    NoDiagonalFour(b, p);
  }

  lemma NoStraightFour(b: Board, p: Byte)
    requires b == MissedDiagonalBoard() && (p == PLAYER_IA || p == PLAYER)
    ensures !RowsWin(b, p) && !ColsWin(b, p)
  {
    MissedDiagonalCells();
    forall r, i | 0 <= r < HEIGHT && 0 <= i < WIDTH
      ensures !FourAt(Row(b, r), p, i)
    {
    }
    forall c, i | 0 <= c < WIDTH && 0 <= i < HEIGHT
      ensures !FourAt(Col(b, c), p, i)
    {
    }
  }

  lemma NoDiagonalFour(b: Board, p: Byte)
    requires b == MissedDiagonalBoard() && (p == PLAYER_IA || p == PLAYER)
    ensures !AntiWin(b, p, EARLY_DIAG_END) && !DiagWin(b, p, EARLY_DIAG_END)
  {
    MissedDiagonalCells();
    forall k, i | 3 <= k < EARLY_DIAG_END && 0 <= i < AntiLen(k)
      ensures !FourAt(Anti(b, k), p, i)
    {
    }
    forall k, i | 3 <= k < EARLY_DIAG_END && 0 <= i < DiagLen(k)
      ensures !FourAt(Diag(b, k), p, i)
    {
    }
  }
}
