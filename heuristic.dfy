/** The static evaluation of the pruning engine: every one of the 27 scanned
    lines adds a score between 0 and 100 for a player, and a position is
    worth player 1's total minus player 2's. */
module Heuristic {
  import opened Boards
  import opened Lines
  import opened Symmetry

  /** The counters of one line scan: count_player, max_player, count_empty. */
  datatype Tally = Tally(player: nat, longest: nat, empty: nat)

  /** The counters after scanning `s` for `p`. An empty cell is counted and,
      when `reset` is set (the column scan only), restarts count_player; a
      cell of `p` extends count_player and max_player; any other cell is
      skipped without touching the counters. */
  function Scan(s: seq<Byte>, p: Byte, reset: bool): (t: Tally)
    ensures t.player <= t.longest
    ensures t.longest + t.empty <= |s|
  {
    if s == [] then Tally(0, 0, 0)
    else
      var t := Scan(s[..|s| - 1], p, reset);
      var x := s[|s| - 1];
      if x == EMPTY then Tally(if reset then 0 else t.player, t.longest, t.empty + 1)
      else if x == p then Tally(t.player + 1, Max(t.player + 1, t.longest), t.empty)
      else t
  }

  /** Without the reset the scan only counts: count_player and max_player are
      both the number of cells of `p`, count_empty the number of empty cells. */
  lemma {:induction false} ScanCounts(s: seq<Byte>, p: Byte, reset: bool)
    requires p != EMPTY
    ensures Scan(s, p, reset).empty == Count(s, EMPTY)
    ensures !reset ==> Scan(s, p, reset).player == Count(s, p) && Scan(s, p, reset).longest == Count(s, p)
  {
    if s != [] {
      ScanCounts(s[..|s| - 1], p, reset);
    }
  }

  /** Exchanging the players in the line and in `p` leaves the counters alone. */
  lemma {:induction false} ScanSwap(s: seq<Byte>, p: Byte, reset: bool)
    ensures Scan(SwapSeq(s), SwapCell(p), reset) == Scan(s, p, reset)
  {
    if s != [] {
      assert SwapSeq(s)[..|s| - 1] == SwapSeq(s[..|s| - 1]);
      ScanSwap(s[..|s| - 1], p, reset);
    }
  }

  /** A row: the player's total, not a run, is compared with 3. */
  function RowScore(s: seq<Byte>, p: Byte): (v: int)
    requires |s| <= WIDTH
    ensures 0 <= v <= 100
  {
    var t := Scan(s, p, false);
    if t.player == 3 && t.empty > 0 then 100 else t.player * 5 + t.empty
  }

  /** A column: empty cells restart count_player, and max_player is compared
      with 3. */
  function ColScore(s: seq<Byte>, p: Byte): (v: int)
    requires |s| <= WIDTH
    ensures 0 <= v <= 100
  {
    var t := Scan(s, p, true);
    if t.longest == 3 && t.empty > 0 then 100 else t.player * 5 + t.empty
  }

  /** A diagonal of either family: pieces weigh 1 instead of 5. */
  function DiagScore(s: seq<Byte>, p: Byte): (v: int)
    requires |s| <= WIDTH
    ensures 0 <= v <= 100
  {
    var t := Scan(s, p, false);
    if t.longest == 3 && t.empty > 0 then 100 else t.player + t.empty
  }

  /** The row and diagonal scores depend only on how many cells of `p` and
      how many empty cells the line holds, not on where they are. */
  lemma LineScoresCount(s: seq<Byte>, p: Byte)
    requires |s| <= WIDTH && p != EMPTY
    ensures RowScore(s, p) ==
      if Count(s, p) == 3 && Count(s, EMPTY) > 0 then 100 else 5 * Count(s, p) + Count(s, EMPTY)
    ensures DiagScore(s, p) ==
      if Count(s, p) == 3 && Count(s, EMPTY) > 0 then 100 else Count(s, p) + Count(s, EMPTY)
  {
    ScanCounts(s, p, false);
  }

  function SumSeq(xs: seq<int>): int
  {
    if xs == [] then 0 else SumSeq(xs[..|xs| - 1]) + xs[|xs| - 1]
  }

  lemma {:induction false} SumBounds(xs: seq<int>, hi: int)
    requires forall i :: 0 <= i < |xs| ==> 0 <= xs[i] <= hi
    ensures 0 <= SumSeq(xs) <= hi * |xs|
  {
    if xs != [] {
      SumBounds(xs[..|xs| - 1], hi);
    }
  }

  lemma {:induction false} SumAppend(xs: seq<int>, ys: seq<int>)
    ensures SumSeq(xs + ys) == SumSeq(xs) + SumSeq(ys)
  {
    if ys != [] {
      assert (xs + ys)[..|xs + ys| - 1] == xs + ys[..|ys| - 1];
      SumAppend(xs, ys[..|ys| - 1]);
    } else {
      assert xs + ys == xs;
    }
  }

  lemma {:induction false} SumReverse(xs: seq<int>)
    ensures SumSeq(Reverse(xs)) == SumSeq(xs)
  {
    if xs != [] {
      var n := |xs| - 1;
      assert Reverse(xs) == [xs[n]] + Reverse(xs[..n]);
      SumAppend([xs[n]], Reverse(xs[..n]));
      assert SumSeq([xs[n]]) == xs[n] by {
        assert [xs[n]][..0] == [];
      }
      SumReverse(xs[..n]);
    }
  }

  lemma {:induction false} CountAppend(s: seq<Byte>, t: seq<Byte>, v: Byte)
    ensures Count(s + t, v) == Count(s, v) + Count(t, v)
  {
    if t != [] {
      assert (s + t)[..|s + t| - 1] == s + t[..|t| - 1];
      CountAppend(s, t[..|t| - 1], v);
    } else {
      assert s + t == s;
    }
  }

  lemma {:induction false} CountReverse(s: seq<Byte>, v: Byte)
    ensures Count(Reverse(s), v) == Count(s, v)
  {
    if s != [] {
      var n := |s| - 1;
      assert Reverse(s) == [s[n]] + Reverse(s[..n]);
      CountAppend([s[n]], Reverse(s[..n]), v);
      assert [s[n]][..0] == [];
      CountReverse(s[..n], v);
    }
  }

  lemma LineLengths(k: int)
    ensures AntiLen(k) <= WIDTH && DiagLen(k) <= WIDTH
  {
  }

  function RowScores(b: Board, p: Byte): (xs: seq<int>)
    ensures |xs| == HEIGHT
  {
    seq(HEIGHT, r requires 0 <= r < HEIGHT => RowScore(Row(b, r), p))
  }

  function ColScores(b: Board, p: Byte): (xs: seq<int>)
    ensures |xs| == WIDTH
  {
    seq(WIDTH, c requires 0 <= c < WIDTH => ColScore(Col(b, c), p))
  }

  /** Anti-diagonal k = 3 + i, for k in 3 .. DIAG_END - 1. */
  function AntiScores(b: Board, p: Byte): (xs: seq<int>)
    ensures |xs| == DIAG_END - 3
  {
    seq(DIAG_END - 3, i requires 0 <= i < DIAG_END - 3 => LineLengths(3 + i); DiagScore(Anti(b, 3 + i), p))
  }

  function DiagScores(b: Board, p: Byte): (xs: seq<int>)
    ensures |xs| == DIAG_END - 3
  {
    seq(DIAG_END - 3, i requires 0 <= i < DIAG_END - 3 => LineLengths(3 + i); DiagScore(Diag(b, 3 + i), p))
  }

  /** What evaluate_player_position adds up for `p`. */
  function PlayerScore(b: Board, p: Byte): int
  {
    SumSeq(RowScores(b, p)) + SumSeq(ColScores(b, p)) + SumSeq(AntiScores(b, p)) + SumSeq(DiagScores(b, p))
  }

  /** What evaluate_position returns. */
  function Evaluation(b: Board): int
  {
    PlayerScore(b, PLAYER_IA) - PlayerScore(b, PLAYER)
  }

  /** 27 lines of at most 100 each. */
  lemma PlayerScoreBounds(b: Board, p: Byte)
    ensures 0 <= PlayerScore(b, p) <= 27 * 100
  {
    SumBounds(RowScores(b, p), 100);
    SumBounds(ColScores(b, p), 100);
    SumBounds(AntiScores(b, p), 100);
    SumBounds(DiagScores(b, p), 100);
  }

  lemma EvaluationBounds(b: Board)
    ensures -2700 <= Evaluation(b) <= 2700
  {
    PlayerScoreBounds(b, PLAYER_IA);
    PlayerScoreBounds(b, PLAYER);
  }

  /** Each line score is unchanged when the line and the player are swapped. */
  lemma LineScoresSwap(s: seq<Byte>, p: Byte)
    requires |s| <= WIDTH
    ensures RowScore(SwapSeq(s), SwapCell(p)) == RowScore(s, p)
    ensures ColScore(SwapSeq(s), SwapCell(p)) == ColScore(s, p)
    ensures DiagScore(SwapSeq(s), SwapCell(p)) == DiagScore(s, p)
  {
    ScanSwap(s, p, false);
    ScanSwap(s, p, true);
  }

  /** A player's score on the swapped board is the other player's score. */
  lemma PlayerScoreSwap(b: Board, p: Byte)
    ensures PlayerScore(Swap(b), SwapCell(p)) == PlayerScore(b, p)
  {
    SwapLines(b);
    forall r | 0 <= r < HEIGHT
      ensures RowScores(Swap(b), SwapCell(p))[r] == RowScores(b, p)[r]
    {
      LineScoresSwap(Row(b, r), p);
    }
    forall c | 0 <= c < WIDTH
      ensures ColScores(Swap(b), SwapCell(p))[c] == ColScores(b, p)[c]
    {
      LineScoresSwap(Col(b, c), p);
    }
    forall i | 0 <= i < DIAG_END - 3
      ensures AntiScores(Swap(b), SwapCell(p))[i] == AntiScores(b, p)[i]
      ensures DiagScores(Swap(b), SwapCell(p))[i] == DiagScores(b, p)[i]
    {
      LineLengths(3 + i);
      LineScoresSwap(Anti(b, 3 + i), p);
      LineScoresSwap(Diag(b, 3 + i), p);
    }
    assert RowScores(Swap(b), SwapCell(p)) == RowScores(b, p);
    assert ColScores(Swap(b), SwapCell(p)) == ColScores(b, p);
    assert AntiScores(Swap(b), SwapCell(p)) == AntiScores(b, p);
    assert DiagScores(Swap(b), SwapCell(p)) == DiagScores(b, p);
  }

  /** Exchanging the players negates the evaluation. */
  lemma EvaluationSwap(b: Board)
    ensures Evaluation(Swap(b)) == -Evaluation(b)
  {
    PlayerScoreSwap(b, PLAYER_IA);
    PlayerScoreSwap(b, PLAYER);
  }

  /** The empty board is worth the same to both players. */
  lemma EvaluationEmpty()
    ensures Evaluation(EmptyBoard()) == 0
  {
    SwapEmptyBoard();
    EvaluationSwap(EmptyBoard());
  }

  /** Reversing a line changes neither its row score nor its diagonal score. */
  lemma LineScoresReverse(s: seq<Byte>, p: Byte)
    requires |s| <= WIDTH && p != EMPTY
    ensures RowScore(Reverse(s), p) == RowScore(s, p)
    ensures DiagScore(Reverse(s), p) == DiagScore(s, p)
  {
    LineScoresCount(s, p);
    LineScoresCount(Reverse(s), p);
    CountReverse(s, p);
    CountReverse(s, EMPTY);
  }

  lemma RowScoresMirror(b: Board, p: Byte)
    requires p != EMPTY
    ensures RowScores(Mirror(b), p) == RowScores(b, p)
  {
    MirrorLines(b);
    forall r | 0 <= r < HEIGHT
      ensures RowScores(Mirror(b), p)[r] == RowScores(b, p)[r]
    {
      LineScoresReverse(Row(b, r), p);
    }
  }

  lemma ColScoresMirror(b: Board, p: Byte)
    ensures ColScores(Mirror(b), p) == Reverse(ColScores(b, p))
  {
    MirrorLines(b);
    forall c | 0 <= c < WIDTH
      ensures ColScores(Mirror(b), p)[c] == Reverse(ColScores(b, p))[c]
    {
    }
  }

  /** The mirrored board's anti-diagonal scores are the diagonal scores in
      reverse order, and the other way round. */
  lemma AntiScoresMirror(b: Board, p: Byte)
    requires p != EMPTY
    ensures AntiScores(Mirror(b), p) == Reverse(DiagScores(b, p))
  {
    forall i | 0 <= i < DIAG_END - 3
      ensures AntiScores(Mirror(b), p)[i] == Reverse(DiagScores(b, p))[i]
    {
      var k := 3 + i;
      LineLengths(k);
      LineLengths(WIDTH + HEIGHT - 1 - k);
      MirrorAnti(b, k);
      LineScoresReverse(Diag(b, WIDTH + HEIGHT - 1 - k), p);
    }
  }

  lemma DiagScoresMirror(b: Board, p: Byte)
    requires p != EMPTY
    ensures DiagScores(Mirror(b), p) == Reverse(AntiScores(b, p))
  {
    forall i | 0 <= i < DIAG_END - 3
      ensures DiagScores(Mirror(b), p)[i] == Reverse(AntiScores(b, p))[i]
    {
      var k := 3 + i;
      LineLengths(k);
      LineLengths(WIDTH + HEIGHT - 1 - k);
      MirrorDiag(b, k);
      LineScoresReverse(Anti(b, WIDTH + HEIGHT - 1 - k), p);
    }
  }

  /** A player's score is the same on the mirrored board: rows reverse,
      columns and the two diagonal families trade places, and the row and
      diagonal scores only count cells. */
  lemma PlayerScoreMirror(b: Board, p: Byte)
    requires p != EMPTY
    ensures PlayerScore(Mirror(b), p) == PlayerScore(b, p)
  {
    RowScoresMirror(b, p);
    ColScoresMirror(b, p);
    AntiScoresMirror(b, p);
    DiagScoresMirror(b, p);
    SumReverse(ColScores(b, p));
    SumReverse(AntiScores(b, p));
    SumReverse(DiagScores(b, p));
  }

  /** Mirroring the board left to right leaves the evaluation unchanged. */
  lemma EvaluationMirror(b: Board)
    ensures Evaluation(Mirror(b)) == Evaluation(b)
  {
    PlayerScoreMirror(b, PLAYER_IA);
    PlayerScoreMirror(b, PLAYER);
  }

  // ----- the scanning loops of evaluate_player_position -----

  /** The horizontal section. */
  method EvaluateRows(b: Board, p: Byte) returns (evaluation: int)
    ensures evaluation == SumSeq(RowScores(b, p))
  {
    evaluation := 0;
    for row := 0 to HEIGHT
      invariant evaluation == SumSeq(RowScores(b, p)[..row])
    {
      var maxPlayer: nat, countPlayer: nat, countEmpty: nat := 0, 0, 0;
      for col := 0 to WIDTH
        invariant Tally(countPlayer, maxPlayer, countEmpty) == Scan(Row(b, row)[..col], p, false)
      {
        assert Row(b, row)[..col + 1][..col] == Row(b, row)[..col];
        if b[Idx(row, col)] == EMPTY {
          countEmpty := countEmpty + 1;
          continue;
        }
        if b[Idx(row, col)] == p {
          countPlayer := countPlayer + 1;
          maxPlayer := Max(countPlayer, maxPlayer);
        }
      }
      assert Row(b, row)[..WIDTH] == Row(b, row);
      if countPlayer == 3 && countEmpty > 0 {
        evaluation := evaluation + 100;
      } else {
        evaluation := evaluation + countPlayer * 5 + countEmpty;
      }
      assert RowScores(b, p)[..row + 1][..row] == RowScores(b, p)[..row];
    }
    assert RowScores(b, p)[..HEIGHT] == RowScores(b, p);
  }

  /** The vertical section: an empty cell restarts count_player. */
  method EvaluateCols(b: Board, p: Byte) returns (evaluation: int)
    ensures evaluation == SumSeq(ColScores(b, p))
  {
    evaluation := 0;
    for col := 0 to WIDTH
      invariant evaluation == SumSeq(ColScores(b, p)[..col])
    {
      var maxPlayer: nat, countPlayer: nat, countEmpty: nat := 0, 0, 0;
      for row := 0 to HEIGHT
        invariant Tally(countPlayer, maxPlayer, countEmpty) == Scan(Col(b, col)[..row], p, true)
      {
        assert Col(b, col)[..row + 1][..row] == Col(b, col)[..row];
        if b[Idx(row, col)] == EMPTY {
          countPlayer := 0;
          countEmpty := countEmpty + 1;
          continue;
        }
        if b[Idx(row, col)] == p {
          countPlayer := countPlayer + 1;
          maxPlayer := Max(countPlayer, maxPlayer);
        }
      }
      assert Col(b, col)[..HEIGHT] == Col(b, col);
      if maxPlayer == 3 && countEmpty > 0 {
        evaluation := evaluation + 100;
      } else {
        evaluation := evaluation + countPlayer * 5 + countEmpty;
      }
      assert ColScores(b, p)[..col + 1][..col] == ColScores(b, p)[..col];
    }
    assert ColScores(b, p)[..WIDTH] == ColScores(b, p);
  }

  /** One column of the walk over anti-diagonal k: the source's branches
      turn the tally of the cells before it into the tally including it. */
  lemma AntiTallyStep(b: Board, k: int, col: int, p: Byte, t: Tally, next: Tally)
    requires 0 <= col <= k
    requires t == Scan(Anti(b, k)[..AntiSeen(k, col)], p, false)
    requires var row := k - col;
      if !(row < HEIGHT && col < WIDTH) then next == t
      else if b[Idx(row, col)] == EMPTY then next == Tally(t.player, t.longest, t.empty + 1)
      else if b[Idx(row, col)] == p then next == Tally(t.player + 1, Max(t.player + 1, t.longest), t.empty)
      else next == t
    ensures next == Scan(Anti(b, k)[..AntiSeen(k, col + 1)], p, false)
  {
    AntiWalk(b, k, col);
    var row := k - col;
    if row < HEIGHT && col < WIDTH {
      var s := Anti(b, k)[..AntiSeen(k, col + 1)];
      assert s[..|s| - 1] == Anti(b, k)[..AntiSeen(k, col)];
    } else {
      assert AntiSeen(k, col + 1) == AntiSeen(k, col);
    }
  }

  lemma AntiTallyDone(b: Board, k: int, p: Byte, t: Tally)
    requires 0 <= k
    requires t == Scan(Anti(b, k)[..AntiSeen(k, k + 1)], p, false)
    ensures t == Scan(Anti(b, k), p, false)
  {
    AntiWalk(b, k, 0);
    assert Anti(b, k)[..AntiLen(k)] == Anti(b, k);
  }

  /** The walk over anti-diagonal k: col = 0 ..= k, row = k - col, cells off
      the board skipped. */
  method TallyAnti(b: Board, p: Byte, k: nat) returns (t: Tally)
    ensures t == Scan(Anti(b, k), p, false)
  {
    var maxPlayer: nat, countPlayer: nat, countEmpty: nat := 0, 0, 0;
    for col := 0 to k + 1
      invariant Tally(countPlayer, maxPlayer, countEmpty) == Scan(Anti(b, k)[..AntiSeen(k, col)], p, false)
    {
      ghost var before := Tally(countPlayer, maxPlayer, countEmpty);
      var row := k - col;
      if row < HEIGHT && col < WIDTH {
        if b[Idx(row, col)] == EMPTY {
          countEmpty := countEmpty + 1;
          AntiTallyStep(b, k, col, p, before, Tally(countPlayer, maxPlayer, countEmpty));
          continue;
        }
        if b[Idx(row, col)] == p {
          countPlayer := countPlayer + 1;
          maxPlayer := Max(countPlayer, maxPlayer);
        }
      }
      AntiTallyStep(b, k, col, p, before, Tally(countPlayer, maxPlayer, countEmpty));
    }
    t := Tally(countPlayer, maxPlayer, countEmpty);
    AntiTallyDone(b, k, p, t);
  }

  /** The anti-diagonal section: k in 3 .. DIAG_END - 1. */
  method EvaluateAnti(b: Board, p: Byte) returns (evaluation: int)
    ensures evaluation == SumSeq(AntiScores(b, p))
  {
    evaluation := 0;
    for k := 3 to DIAG_END
      invariant evaluation == SumSeq(AntiScores(b, p)[..k - 3])
    {
      var t := TallyAnti(b, p, k);
      LineLengths(k);
      assert AntiScores(b, p)[k - 3] == DiagScore(Anti(b, k), p);
      if t.longest == 3 && t.empty > 0 {
        evaluation := evaluation + 100;
      } else {
        evaluation := evaluation + t.player + t.empty;
      }
      assert AntiScores(b, p)[..k - 2][..k - 3] == AntiScores(b, p)[..k - 3];
    }
    assert AntiScores(b, p)[..DIAG_END - 3] == AntiScores(b, p);
  }

  /** One column of the walk over diagonal k, as for AntiTallyStep. */
  lemma DiagTallyStep(b: Board, k: int, col: int, p: Byte, t: Tally, next: Tally)
    requires 0 <= col <= k
    requires t == Scan(Diag(b, k)[..DiagSeen(k, col)], p, false)
    requires var row := HEIGHT - k + col;
      if !(row >= 0 && row < HEIGHT && col < WIDTH) then next == t
      else if b[Idx(row, col)] == EMPTY then next == Tally(t.player, t.longest, t.empty + 1)
      else if b[Idx(row, col)] == p then next == Tally(t.player + 1, Max(t.player + 1, t.longest), t.empty)
      else next == t
    ensures next == Scan(Diag(b, k)[..DiagSeen(k, col + 1)], p, false)
  {
    DiagWalk(b, k, col);
    var row := HEIGHT - k + col;
    if row >= 0 && row < HEIGHT && col < WIDTH {
      var s := Diag(b, k)[..DiagSeen(k, col + 1)];
      assert s[..|s| - 1] == Diag(b, k)[..DiagSeen(k, col)];
    } else {
      assert DiagSeen(k, col + 1) == DiagSeen(k, col);
    }
  }

  lemma DiagTallyDone(b: Board, k: int, p: Byte, t: Tally)
    requires 1 <= k
    requires t == Scan(Diag(b, k)[..DiagSeen(k, k + 1)], p, false)
    ensures t == Scan(Diag(b, k), p, false)
  {
    DiagWalk(b, k, 0);
    assert Diag(b, k)[..DiagLen(k)] == Diag(b, k);
  }

  /** The walk over diagonal k: col = 0 ..= k, row = HEIGHT - k + col, cells
      off the board skipped. */
  method TallyDiag(b: Board, p: Byte, k: nat) returns (t: Tally)
    requires 1 <= k
    ensures t == Scan(Diag(b, k), p, false)
  {
    var maxPlayer: nat, countPlayer: nat, countEmpty: nat := 0, 0, 0;
    for col := 0 to k + 1
      invariant Tally(countPlayer, maxPlayer, countEmpty) == Scan(Diag(b, k)[..DiagSeen(k, col)], p, false)
    {
      ghost var before := Tally(countPlayer, maxPlayer, countEmpty);
      var row := HEIGHT - k + col;
      if row >= 0 && row < HEIGHT && col < WIDTH {
        if b[Idx(row, col)] == EMPTY {
          countEmpty := countEmpty + 1;
          DiagTallyStep(b, k, col, p, before, Tally(countPlayer, maxPlayer, countEmpty));
          continue;
        }
        if b[Idx(row, col)] == p {
          countPlayer := countPlayer + 1;
          maxPlayer := Max(countPlayer, maxPlayer);
        }
      }
      DiagTallyStep(b, k, col, p, before, Tally(countPlayer, maxPlayer, countEmpty));
    }
    t := Tally(countPlayer, maxPlayer, countEmpty);
    DiagTallyDone(b, k, p, t);
  }


  /** The diagonal section: k in 3 .. DIAG_END - 1. */
  method EvaluateDiag(b: Board, p: Byte) returns (evaluation: int)
    ensures evaluation == SumSeq(DiagScores(b, p))
  {
    evaluation := 0;
    for k := 3 to DIAG_END
      invariant evaluation == SumSeq(DiagScores(b, p)[..k - 3])
    {
      var t := TallyDiag(b, p, k);
      LineLengths(k);
      assert DiagScores(b, p)[k - 3] == DiagScore(Diag(b, k), p);
      if t.longest == 3 && t.empty > 0 {
        evaluation := evaluation + 100;
      } else {
        evaluation := evaluation + t.player + t.empty;
      }
      assert DiagScores(b, p)[..k - 2][..k - 3] == DiagScores(b, p)[..k - 3];
    }
    assert DiagScores(b, p)[..DIAG_END - 3] == DiagScores(b, p);
  }

  /** The source's evaluate_player_position: the four sections in order. */
  method EvaluatePlayerPosition(b: Board, p: Byte) returns (evaluation: int)
    ensures evaluation == PlayerScore(b, p)
    ensures 0 <= evaluation <= 2700
  {
    var rows := EvaluateRows(b, p);
    var cols := EvaluateCols(b, p);
    var anti := EvaluateAnti(b, p);
    var diag := EvaluateDiag(b, p);
    evaluation := rows + cols + anti + diag;
    PlayerScoreBounds(b, p);
  }

  /** The source's evaluate_position: player 1's score minus player 2's. */
  method EvaluatePosition(b: Board) returns (e: int)
    ensures e == Evaluation(b)
    ensures -2700 <= e <= 2700
  {
    var mine := EvaluatePlayerPosition(b, PLAYER_IA);
    var theirs := EvaluatePlayerPosition(b, PLAYER);
    e := mine - theirs;
  }
}
