/** The two symmetries of the board that the engine respects: exchanging the
    two players, and mirroring the board left to right (col -> WIDTH-1-col). */
module Symmetry {
  import opened Boards
  import opened Lines

  // ----- exchanging the players -----

  /** Player 1 becomes player 2 and back; every other value is kept. */
  function SwapCell(x: Byte): (y: Byte)
    ensures (y == EMPTY) == (x == EMPTY)
  {
    if x == PLAYER_IA then PLAYER else if x == PLAYER then PLAYER_IA else x
  }

  function SwapSeq(s: seq<Byte>): (t: seq<Byte>)
    ensures |t| == |s|
  {
    seq(|s|, i requires 0 <= i < |s| => SwapCell(s[i]))
  }

  function Swap(b: Board): Board
  {
    SwapSeq(b)
  }

  lemma SwapCellsOf(b: Board, r: int, c: int)
    requires OnBoard(r, c)
    ensures Cell(Swap(b), r, c) == SwapCell(Cell(b, r, c))
  {
    IdxInRange(r, c);
  }

  lemma SwapEmptyBoard()
    ensures Swap(EmptyBoard()) == EmptyBoard()
  {
  }

  /** Every scanned line of the swapped board is the swapped line. */
  lemma SwapLines(b: Board)
    ensures forall r :: 0 <= r < HEIGHT ==> Row(Swap(b), r) == SwapSeq(Row(b, r))
    ensures forall c :: 0 <= c < WIDTH ==> Col(Swap(b), c) == SwapSeq(Col(b, c))
    ensures forall k :: Anti(Swap(b), k) == SwapSeq(Anti(b, k))
    ensures forall k :: Diag(Swap(b), k) == SwapSeq(Diag(b, k))
  {
    forall r | 0 <= r < HEIGHT
      ensures Row(Swap(b), r) == SwapSeq(Row(b, r))
    {
      forall c | 0 <= c < WIDTH
        ensures Row(Swap(b), r)[c] == SwapSeq(Row(b, r))[c]
      {
        SwapCellsOf(b, r, c);
      }
    }
    forall c | 0 <= c < WIDTH
      ensures Col(Swap(b), c) == SwapSeq(Col(b, c))
    {
      forall r | 0 <= r < HEIGHT
        ensures Col(Swap(b), c)[r] == SwapSeq(Col(b, c))[r]
      {
        SwapCellsOf(b, r, c);
      }
    }
    forall k
      ensures Anti(Swap(b), k) == SwapSeq(Anti(b, k))
    {
      forall i | 0 <= i < AntiLen(k)
        ensures Anti(Swap(b), k)[i] == SwapSeq(Anti(b, k))[i]
      {
        SwapCellsOf(b, k - (AntiLo(k) + i), AntiLo(k) + i);
      }
    }
    forall k
      ensures Diag(Swap(b), k) == SwapSeq(Diag(b, k))
    {
      forall i | 0 <= i < DiagLen(k)
        ensures Diag(Swap(b), k)[i] == SwapSeq(Diag(b, k))[i]
      {
        SwapCellsOf(b, HEIGHT - k + DiagLo(k) + i, DiagLo(k) + i);
      }
    }
  }

  /** A line holds four of `p` exactly when its swap holds four of the
      swapped player. */
  lemma FourInSwap(s: seq<Byte>, p: Byte)
    ensures FourIn(SwapSeq(s), SwapCell(p)) == FourIn(s, p)
  {
    if FourIn(s, p) {
      var i :| 0 <= i < |s| && FourAt(s, p, i);
      assert FourAt(SwapSeq(s), SwapCell(p), i);
    }
    if FourIn(SwapSeq(s), SwapCell(p)) {
      var i :| 0 <= i < |s| && FourAt(SwapSeq(s), SwapCell(p), i);
      assert FourAt(s, p, i);
    }
  }

  /** The row/column/diagonal scan finds a four of `p` on `b` exactly when it
      finds a four of the other player on the swapped board. */
  lemma ScanWinsSwap(b: Board, p: Byte, kEnd: int)
    ensures ScanWins(Swap(b), SwapCell(p), kEnd) == ScanWins(b, p, kEnd)
  {
    SwapLines(b);
    forall s: seq<Byte> {
      FourInSwap(s, p);
    }
    assert RowsWin(Swap(b), SwapCell(p)) == RowsWin(b, p);
    assert ColsWin(Swap(b), SwapCell(p)) == ColsWin(b, p);
    assert AntiWin(Swap(b), SwapCell(p), kEnd) == AntiWin(b, p, kEnd);
    assert DiagWin(Swap(b), SwapCell(p), kEnd) == DiagWin(b, p, kEnd);
  }

  // ----- mirroring left to right -----

  function Reverse<T>(s: seq<T>): (t: seq<T>)
    ensures |t| == |s|
  {
    seq(|s|, i requires 0 <= i < |s| => s[|s| - 1 - i])
  }

  /** The board seen in a mirror: column c becomes column WIDTH-1-c. */
  function Mirror(b: Board): Board
  {
    seq(CELLS, i requires 0 <= i < CELLS => b[Idx(i / WIDTH, WIDTH - 1 - i % WIDTH)])
  }

  lemma MirrorCellsOf(b: Board, r: int, c: int)
    requires OnBoard(r, c)
    ensures Cell(Mirror(b), r, c) == Cell(b, r, WIDTH - 1 - c)
  {
    IdxInRange(r, c);
    assert Idx(r, c) / WIDTH == r;
    assert Idx(r, c) % WIDTH == c;
  }

  lemma MirrorMirror(b: Board)
    ensures Mirror(Mirror(b)) == b
  {
    forall i | 0 <= i < CELLS
      ensures Mirror(Mirror(b))[i] == b[i]
    {
      var r, c := i / WIDTH, i % WIDTH;
      assert i == Idx(r, c);
      MirrorCellsOf(Mirror(b), r, c);
      MirrorCellsOf(b, r, WIDTH - 1 - c);
    }
  }

  /** Rows reverse and columns trade places. */
  lemma MirrorLines(b: Board)
    ensures forall r :: 0 <= r < HEIGHT ==> Row(Mirror(b), r) == Reverse(Row(b, r))
    ensures forall c :: 0 <= c < WIDTH ==> Col(Mirror(b), c) == Col(b, WIDTH - 1 - c)
  {
    forall r | 0 <= r < HEIGHT
      ensures Row(Mirror(b), r) == Reverse(Row(b, r))
    {
      forall c | 0 <= c < WIDTH
        ensures Row(Mirror(b), r)[c] == Reverse(Row(b, r))[c]
      {
        MirrorCellsOf(b, r, c);
      }
    }
    forall c | 0 <= c < WIDTH
      ensures Col(Mirror(b), c) == Col(b, WIDTH - 1 - c)
    {
      forall r | 0 <= r < HEIGHT
        ensures Col(Mirror(b), c)[r] == Col(b, WIDTH - 1 - c)[r]
      {
        MirrorCellsOf(b, r, c);
      }
    }
  }

  /** The two diagonal families exchange: anti-diagonal k of the mirrored
      board is diagonal WIDTH+HEIGHT-1-k read backwards. */
  lemma MirrorAnti(b: Board, k: int)
    ensures Anti(Mirror(b), k) == Reverse(Diag(b, WIDTH + HEIGHT - 1 - k))
  {
    var k' := WIDTH + HEIGHT - 1 - k;
    assert AntiLen(k) == DiagLen(k');
    forall i | 0 <= i < AntiLen(k)
      ensures Anti(Mirror(b), k)[i] == Reverse(Diag(b, k'))[i]
    {
      MirrorCellsOf(b, k - (AntiLo(k) + i), AntiLo(k) + i);
      assert DiagLo(k') + (DiagLen(k') - 1 - i) == WIDTH - 1 - (AntiLo(k) + i);
    }
  }

  lemma MirrorDiag(b: Board, k: int)
    ensures Diag(Mirror(b), k) == Reverse(Anti(b, WIDTH + HEIGHT - 1 - k))
  {
    var k' := WIDTH + HEIGHT - 1 - k;
    MirrorAnti(Mirror(b), k');
    MirrorMirror(b);
    assert Anti(b, k') == Reverse(Diag(Mirror(b), k));
    ReverseReverse(Diag(Mirror(b), k));
  }

  lemma ReverseReverse<T>(s: seq<T>)
    ensures Reverse(Reverse(s)) == s
  {
  }
}
