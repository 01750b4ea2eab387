/** Terminal detection: the run-counting four-in-a-row scan and the game-over
    test of the pruning engine. */
module Terminal {
  import opened Boards
  import opened Lines

  /** The rows section of player_won: runs of `p` along each row. */
  method ScanRows(b: Board, p: Byte) returns (found: bool)
    ensures found == RowsWin(b, p)
  {
    for row := 0 to HEIGHT
      invariant forall r :: 0 <= r < row ==> !FourIn(Row(b, r), p)
    {
      var count := 0;
      for col := 0 to WIDTH
        invariant count == TrailingRun(Row(b, row)[..col], p) && count < 4
        invariant !FourIn(Row(b, row)[..col], p)
      {
        RunStep(Row(b, row), col, p);
        if b[Idx(row, col)] == p {
          count := count + 1;
        } else {
          count := 0;
        }
        if count == 4 {
          FourInPrefix(Row(b, row), col + 1, p);
          return true;
        }
      }
      FourInWhole(Row(b, row), p);
    }
    return false;
  }

  /** The columns section of player_won, with its early exit once the run
      so far plus the rows left cannot reach four. */
  method ScanCols(b: Board, p: Byte) returns (found: bool)
    ensures found == ColsWin(b, p)
  {
    for col := 0 to WIDTH
      invariant forall c :: 0 <= c < col ==> !FourIn(Col(b, c), p)
    {
      var count := 0;
      for row := 0 to HEIGHT
        invariant count == TrailingRun(Col(b, col)[..row], p) && count < 4
        invariant !FourIn(Col(b, col)[..row], p)
      {
        RunStep(Col(b, col), row, p);
        if b[Idx(row, col)] == p {
          count := count + 1;
        } else {
          count := 0;
        }
        if count == 4 {
          FourInPrefix(Col(b, col), row + 1, p);
          return true;
        }
        if WIDTH - row + count < 4 {
          NoRoomForFour(Col(b, col), row, p);
          break;
        }
      }
      FourInWhole(Col(b, col), p);
    }
    return false;
  }

  /** One column of the anti-diagonal walk: the source's update of `count`
      turns the run before the column into the run including it, and a four
      has been met exactly when that run reaches four. */
  lemma AntiRunStep(b: Board, k: int, col: int, p: Byte, count: nat, next: nat)
    requires 0 <= col <= k
    requires count == TrailingRun(Anti(b, k)[..AntiSeen(k, col)], p) && count < 4
    requires !FourIn(Anti(b, k)[..AntiSeen(k, col)], p)
    requires next == if k - col < HEIGHT && col < WIDTH then
      (if b[Idx(k - col, col)] == p then count + 1 else 0) else count
    ensures next == TrailingRun(Anti(b, k)[..AntiSeen(k, col + 1)], p)
    ensures FourIn(Anti(b, k)[..AntiSeen(k, col + 1)], p) <==> next >= 4
    ensures next >= 4 ==> FourIn(Anti(b, k), p)
  {
    AntiWalk(b, k, col);
    if k - col < HEIGHT && col < WIDTH {
      RunStep(Anti(b, k), AntiSeen(k, col), p);
    } else {
      assert AntiSeen(k, col + 1) == AntiSeen(k, col);
    }
    if FourIn(Anti(b, k)[..AntiSeen(k, col + 1)], p) {
      FourInPrefix(Anti(b, k), AntiSeen(k, col + 1), p);
    }
  }

  /** After the walk's last column the whole anti-diagonal has been seen. */
  lemma AntiRunDone(b: Board, k: int, p: Byte)
    requires 0 <= k
    requires !FourIn(Anti(b, k)[..AntiSeen(k, k + 1)], p)
    ensures !FourIn(Anti(b, k), p)
  {
    AntiWalk(b, k, 0);
    FourInWhole(Anti(b, k), p);
  }

  lemma DiagRunStep(b: Board, k: int, col: int, p: Byte, count: nat, next: nat)
    requires 0 <= col <= k
    requires count == TrailingRun(Diag(b, k)[..DiagSeen(k, col)], p) && count < 4
    requires !FourIn(Diag(b, k)[..DiagSeen(k, col)], p)
    requires next == if HEIGHT - k + col >= 0 && HEIGHT - k + col < HEIGHT && col < WIDTH then
      (if b[Idx(HEIGHT - k + col, col)] == p then count + 1 else 0) else count
    ensures next == TrailingRun(Diag(b, k)[..DiagSeen(k, col + 1)], p)
    ensures FourIn(Diag(b, k)[..DiagSeen(k, col + 1)], p) <==> next >= 4
    ensures next >= 4 ==> FourIn(Diag(b, k), p)
  {
    DiagWalk(b, k, col);
    if HEIGHT - k + col >= 0 && HEIGHT - k + col < HEIGHT && col < WIDTH {
      RunStep(Diag(b, k), DiagSeen(k, col), p);
    } else {
      assert DiagSeen(k, col + 1) == DiagSeen(k, col);
    }
    if FourIn(Diag(b, k)[..DiagSeen(k, col + 1)], p) {
      FourInPrefix(Diag(b, k), DiagSeen(k, col + 1), p);
    }
  }

  lemma DiagRunDone(b: Board, k: int, p: Byte)
    requires 1 <= k
    requires !FourIn(Diag(b, k)[..DiagSeen(k, k + 1)], p)
    ensures !FourIn(Diag(b, k), p)
  {
    DiagWalk(b, k, 0);
    FourInWhole(Diag(b, k), p);
  }

  /** The anti-diagonal section of player_won: for each k, col runs over
      0 ..= k with row = k - col, skipping positions off the board. */
  method ScanAnti(b: Board, p: Byte, kEnd: int) returns (found: bool)
    requires 3 <= kEnd <= DIAG_END
    ensures found == AntiWin(b, p, kEnd)
  {
    for k := 3 to kEnd
      invariant forall k' :: 3 <= k' < k ==> !FourIn(Anti(b, k'), p)
    {
      var count := 0;
      for col := 0 to k + 1
        invariant count == TrailingRun(Anti(b, k)[..AntiSeen(k, col)], p) && count < 4
        invariant !FourIn(Anti(b, k)[..AntiSeen(k, col)], p)
      {
        ghost var before := count;
        var row := k - col;
        if row < HEIGHT && col < WIDTH {
          if b[Idx(row, col)] == p {
            count := count + 1;
          } else {
            count := 0;
          }
        }
        AntiRunStep(b, k, col, p, before, count);
        if count == 4 {
          return true;
        }
      }
      AntiRunDone(b, k, p);
    }
    return false;
  }

  /** The diagonal section of player_won: for each k, col runs over 0 ..= k
      with row = HEIGHT - k + col, skipping positions off the board. */
  method ScanDiag(b: Board, p: Byte, kEnd: int) returns (found: bool)
    requires 3 <= kEnd <= DIAG_END
    ensures found == DiagWin(b, p, kEnd)
  {
    for k := 3 to kEnd
      invariant forall k' :: 3 <= k' < k ==> !FourIn(Diag(b, k'), p)
    {
      var count := 0;
      for col := 0 to k + 1
        invariant count == TrailingRun(Diag(b, k)[..DiagSeen(k, col)], p) && count < 4
        invariant !FourIn(Diag(b, k)[..DiagSeen(k, col)], p)
      {
        ghost var before := count;
        var row := HEIGHT - k + col;
        if row >= 0 && row < HEIGHT && col < WIDTH {
          if b[Idx(row, col)] == p {
            count := count + 1;
          } else {
            count := 0;
          }
        }
        DiagRunStep(b, k, col, p, before, count);
        if count == 4 {
          return true;
        }
      }
      DiagRunDone(b, k, p);
    }
    return false;
  }

  /** The source's player_won: the four sections in order, answering true
      the moment one of them finds a run of four. The result is exact when
      the full diagonal range is scanned. */
  method PlayerWon(b: Board, p: Byte, diagEnd: int) returns (won: bool)
    requires 3 <= diagEnd <= DIAG_END
    ensures won == ScanWins(b, p, diagEnd)
    ensures won ==> HasFour(b, p)
    ensures diagEnd == DIAG_END ==> (won <==> HasFour(b, p))
  {
    won := ScanRows(b, p);
    if !won {
      won := ScanCols(b, p);
    }
    if !won {
      won := ScanAnti(b, p, diagEnd);
    }
    if !won {
      won := ScanDiag(b, p, diagEnd);
    }
    if won {
      ScanSound(b, p, diagEnd);
    }
    if HasFour(b, p) {
      ScanComplete(b, p);
    }
  }

  /** The pruning engine's is_game_over: a full top row, or a four of the
      side that just moved (player 1 when the flag is false, player 2 when it
      is true). */
  method IsGameOver(b: Board, maximizing: bool) returns (over: bool)
    ensures over == (IsDraw(b) || (!maximizing && HasFour(b, PLAYER_IA)) || (maximizing && HasFour(b, PLAYER)))
  {
    over := IsDraw(b);
    if !over && !maximizing {
      over := PlayerWon(b, PLAYER_IA, DIAG_END);
    }
    if !over && maximizing {
      over := PlayerWon(b, PLAYER, DIAG_END);
    }
  }
}
