/** The 27 lines that both the win check and the heuristic scan: 6 rows,
    7 columns, and the two diagonal families indexed by k in 3 .. 9. A line
    is given as the sequence of its cell values in scan order. */
module Lines {
  import opened Boards

  /** End of the diagonal index range `3 .. WIDTH + HEIGHT - 3`: seven
      indices per family, six of them lines of four or more cells
      (anti-diagonal 9 and diagonal 3 hold three cells each). */
  const DIAG_END: int := WIDTH + HEIGHT - 3

  function Max(a: int, b: int): int { if a >= b then a else b }
  function Min(a: int, b: int): int { if a <= b then a else b }

  /** Row `r`, left to right. */
  function Row(b: Board, r: int): (s: seq<Byte>)
    requires 0 <= r < HEIGHT
    ensures |s| == WIDTH
  {
    seq(WIDTH, c requires 0 <= c < WIDTH => Cell(b, r, c))
  }

  /** Column `c`, bottom to top. */
  function Col(b: Board, c: int): (s: seq<Byte>)
    requires 0 <= c < WIDTH
    ensures |s| == HEIGHT
  {
    seq(HEIGHT, r requires 0 <= r < HEIGHT => Cell(b, r, c))
  }

  /* The anti-diagonal k holds the cells with row + col == k. The source
     walks col = 0 ..= k with row = k - col and skips cells off the board,
     so the cells it meets are those with AntiLo(k) <= col <= AntiHi(k). */
  function AntiLo(k: int): int { Max(0, k - (HEIGHT - 1)) }
  function AntiHi(k: int): int { Min(WIDTH - 1, k) }
  function AntiLen(k: int): nat { if AntiHi(k) >= AntiLo(k) then AntiHi(k) - AntiLo(k) + 1 else 0 }

  /** Cell `i` of anti-diagonal k, counted from its lowest column. */
  function AntiCell(b: Board, k: int, i: int): Byte
    requires 0 <= i < AntiLen(k)
  {
    Cell(b, k - (AntiLo(k) + i), AntiLo(k) + i)
  }

  function Anti(b: Board, k: int): (s: seq<Byte>)
    ensures |s| == AntiLen(k)
  {
    seq(AntiLen(k), i requires 0 <= i < AntiLen(k) => AntiCell(b, k, i))
  }

  /** How many cells of anti-diagonal k the walk has met before column `col`. */
  function AntiSeen(k: int, col: int): nat
  {
    if col <= AntiLo(k) then 0 else Min(col - AntiLo(k), AntiLen(k))
  }

  /* The diagonal k holds the cells with row == HEIGHT - k + col. The source
     walks col = 0 ..= k and skips cells off the board. */
  function DiagLo(k: int): int { Max(0, k - HEIGHT) }
  function DiagHi(k: int): int { Min(WIDTH - 1, k - 1) }
  function DiagLen(k: int): nat { if DiagHi(k) >= DiagLo(k) then DiagHi(k) - DiagLo(k) + 1 else 0 }

  function DiagCell(b: Board, k: int, i: int): Byte
    requires 0 <= i < DiagLen(k)
  {
    Cell(b, HEIGHT - k + DiagLo(k) + i, DiagLo(k) + i)
  }

  function Diag(b: Board, k: int): (s: seq<Byte>)
    ensures |s| == DiagLen(k)
  {
    seq(DiagLen(k), i requires 0 <= i < DiagLen(k) => DiagCell(b, k, i))
  }

  function DiagSeen(k: int, col: int): nat
  {
    if col <= DiagLo(k) then 0 else Min(col - DiagLo(k), DiagLen(k))
  }

  /** One step of the anti-diagonal walk: an on-board cell is the next one
      of the line, an off-board position leaves the count alone. */
  lemma AntiWalk(b: Board, k: int, col: int)
    requires 0 <= col <= k
    ensures OnBoard(k - col, col) ==>
      AntiSeen(k, col) < AntiLen(k) && AntiSeen(k, col + 1) == AntiSeen(k, col) + 1 &&
      Anti(b, k)[AntiSeen(k, col)] == Cell(b, k - col, col)
    ensures !OnBoard(k - col, col) ==> AntiSeen(k, col + 1) == AntiSeen(k, col)
    ensures AntiSeen(k, k + 1) == AntiLen(k)
  {
  }

  lemma DiagWalk(b: Board, k: int, col: int)
    requires 0 <= col <= k
    ensures OnBoard(HEIGHT - k + col, col) ==>
      DiagSeen(k, col) < DiagLen(k) && DiagSeen(k, col + 1) == DiagSeen(k, col) + 1 &&
      Diag(b, k)[DiagSeen(k, col)] == Cell(b, HEIGHT - k + col, col)
    ensures !OnBoard(HEIGHT - k + col, col) ==> DiagSeen(k, col + 1) == DiagSeen(k, col)
    ensures 1 <= k ==> DiagSeen(k, k + 1) == DiagLen(k)
  {
  }

  // ----- runs of one player's pieces -----

  /** Length of the run of `p` at the end of `s`: the source's `count`. */
  function TrailingRun(s: seq<Byte>, p: Byte): nat
  {
    if s == [] || s[|s| - 1] != p then 0 else TrailingRun(s[..|s| - 1], p) + 1
  }

  predicate FourAt(s: seq<Byte>, p: Byte, i: int)
  {
    0 <= i && i + 4 <= |s| && s[i] == p && s[i + 1] == p && s[i + 2] == p && s[i + 3] == p
  }

  /** `s` holds four consecutive cells equal to `p`. */
  predicate FourIn(s: seq<Byte>, p: Byte)
  {
    exists i | 0 <= i < |s| :: FourAt(s, p, i)
  }

  lemma {:induction false} TrailingRunIsRun(t: seq<Byte>, p: Byte)
    ensures TrailingRun(t, p) <= |t|
    ensures forall j :: |t| - TrailingRun(t, p) <= j < |t| ==> t[j] == p
  {
    if t != [] && t[|t| - 1] == p {
      TrailingRunIsRun(t[..|t| - 1], p);
    }
  }

  lemma {:induction false} TrailingRunIsLongest(t: seq<Byte>, i: nat, p: Byte)
    requires i <= |t|
    requires forall j :: i <= j < |t| ==> t[j] == p
    ensures TrailingRun(t, p) >= |t| - i
  {
    if i < |t| {
      TrailingRunIsLongest(t[..|t| - 1], i, p);
    }
  }

  /** Adding one cell: the run grows or resets, and a four appears exactly
      when the run reaches four. */
  lemma RunStep(s: seq<Byte>, j: nat, p: Byte)
    requires j < |s|
    ensures TrailingRun(s[..j + 1], p) == if s[j] == p then TrailingRun(s[..j], p) + 1 else 0
    ensures FourIn(s[..j + 1], p) <==> FourIn(s[..j], p) || TrailingRun(s[..j + 1], p) >= 4
  {
    var t := s[..j + 1];
    assert t[..j] == s[..j];
    TrailingRunIsRun(t, p);
    if FourIn(t, p) && !FourIn(s[..j], p) {
      var i :| 0 <= i < |t| && FourAt(t, p, i);
      if i + 4 <= j {
        assert FourAt(s[..j], p, i);
      }
      TrailingRunIsLongest(t, i, p);
    }
    if TrailingRun(t, p) >= 4 {
      assert FourAt(t, p, j - 3);
    }
    if FourIn(s[..j], p) {
      var i :| 0 <= i < |s[..j]| && FourAt(s[..j], p, i);
      assert FourAt(t, p, i);
    }
  }

  lemma FourInPrefix(s: seq<Byte>, n: nat, p: Byte)
    requires n <= |s|
    requires FourIn(s[..n], p)
    ensures FourIn(s, p)
  {
    var i :| 0 <= i < |s[..n]| && FourAt(s[..n], p, i);
    assert FourAt(s, p, i);
  }

  lemma FourInWhole(s: seq<Byte>, p: Byte)
    ensures FourIn(s[..|s|], p) == FourIn(s, p)
  {
    assert s[..|s|] == s;
  }

  /** A four cannot appear once the run so far plus the cells left is below four. */
  lemma NoRoomForFour(s: seq<Byte>, j: nat, p: Byte)
    requires j < |s|
    requires !FourIn(s[..j + 1], p)
    requires TrailingRun(s[..j + 1], p) + (|s| - j - 1) < 4
    ensures !FourIn(s, p)
  {
    if FourIn(s, p) {
      var i :| 0 <= i < |s| && FourAt(s, p, i);
      var t := s[..j + 1];
      if i + 4 <= j + 1 {
        assert FourAt(t, p, i);
      } else {
        TrailingRunIsLongest(t, i, p);
      }
    }
  }

  // ----- four in a row on the board -----

  ghost predicate Holds(b: Board, p: Byte, r: int, c: int)
  {
    OnBoard(r, c) && Cell(b, r, c) == p
  }

  /** Four cells starting at (r, c) in direction (dr, dc) all hold `p`. */
  ghost predicate FourFrom(b: Board, p: Byte, r: int, c: int, dr: int, dc: int)
  {
    Holds(b, p, r, c) && Holds(b, p, r + dr, c + dc) &&
    Holds(b, p, r + 2 * dr, c + 2 * dc) && Holds(b, p, r + 3 * dr, c + 3 * dc)
  }

  ghost predicate FourAnyWay(b: Board, p: Byte, r: int, c: int)
  {
    FourFrom(b, p, r, c, 0, 1) || FourFrom(b, p, r, c, 1, 0) ||
    FourFrom(b, p, r, c, -1, 1) || FourFrom(b, p, r, c, 1, 1)
  }

  /** `p` holds four consecutive cells in a row, a column or a diagonal. */
  ghost predicate HasFour(b: Board, p: Byte)
  {
    exists r, c :: FourAnyWay(b, p, r, c)
  }

  // ----- the lines a scan examines -----

  predicate RowsWin(b: Board, p: Byte)
  {
    exists r | 0 <= r < HEIGHT :: FourIn(Row(b, r), p)
  }

  predicate ColsWin(b: Board, p: Byte)
  {
    exists c | 0 <= c < WIDTH :: FourIn(Col(b, c), p)
  }

  predicate AntiWin(b: Board, p: Byte, kEnd: int)
  {
    exists k | 3 <= k < kEnd :: FourIn(Anti(b, k), p)
  }

  predicate DiagWin(b: Board, p: Byte, kEnd: int)
  {
    exists k | 3 <= k < kEnd :: FourIn(Diag(b, k), p)
  }

  /** Some scanned line, with diagonal indices below `kEnd`, holds four. */
  predicate ScanWins(b: Board, p: Byte, kEnd: int)
  {
    RowsWin(b, p) || ColsWin(b, p) || AntiWin(b, p, kEnd) || DiagWin(b, p, kEnd)
  }

  lemma RowFourIsFour(b: Board, p: Byte, r: int)
    requires 0 <= r < HEIGHT && FourIn(Row(b, r), p)
    ensures HasFour(b, p)
  {
    var i :| 0 <= i < WIDTH && FourAt(Row(b, r), p, i);
    assert FourAnyWay(b, p, r, i) by { assert FourFrom(b, p, r, i, 0, 1); }
  }

  lemma ColFourIsFour(b: Board, p: Byte, c: int)
    requires 0 <= c < WIDTH && FourIn(Col(b, c), p)
    ensures HasFour(b, p)
  {
    var i :| 0 <= i < HEIGHT && FourAt(Col(b, c), p, i);
    assert FourAnyWay(b, p, i, c) by { assert FourFrom(b, p, i, c, 1, 0); }
  }

  /** Cell j of anti-diagonal k, when it holds `p`, is a cell of `p` on the
      board at (r, c). */
  lemma AntiHolds(b: Board, p: Byte, k: int, j: int, r: int, c: int)
    requires 0 <= j < AntiLen(k) && Anti(b, k)[j] == p
    requires c == AntiLo(k) + j && r == k - c
    ensures Holds(b, p, r, c)
  {
    assert Anti(b, k)[j] == AntiCell(b, k, j);
  }

  lemma DiagHolds(b: Board, p: Byte, k: int, j: int, r: int, c: int)
    requires 0 <= j < DiagLen(k) && Diag(b, k)[j] == p
    requires c == DiagLo(k) + j && r == HEIGHT - k + c
    ensures Holds(b, p, r, c)
  {
    assert Diag(b, k)[j] == DiagCell(b, k, j);
  }

  lemma AntiFourIsFour(b: Board, p: Byte, k: int)
    requires FourIn(Anti(b, k), p)
    ensures HasFour(b, p)
  {
    var i :| 0 <= i < AntiLen(k) && FourAt(Anti(b, k), p, i);
    var c := AntiLo(k) + i;
    var r := k - c;
    AntiFourFrom(b, p, k, i, r, c);
    assert FourAnyWay(b, p, r, c);
  }

  /** Four cells of `p` from position i of anti-diagonal k are four cells of
      the board going up-left to down-right from (r, c). */
  lemma AntiFourFrom(b: Board, p: Byte, k: int, i: int, r: int, c: int)
    requires FourAt(Anti(b, k), p, i)
    requires c == AntiLo(k) + i && r == k - c
    ensures FourFrom(b, p, r, c, -1, 1)
  {
    AntiHolds(b, p, k, i, r, c);
    AntiHolds(b, p, k, i + 1, r - 1, c + 1);
    AntiHolds(b, p, k, i + 2, r - 2, c + 2);
    AntiHolds(b, p, k, i + 3, r - 3, c + 3);
  }

  lemma DiagFourIsFour(b: Board, p: Byte, k: int)
    requires FourIn(Diag(b, k), p)
    ensures HasFour(b, p)
  {
    var i :| 0 <= i < DiagLen(k) && FourAt(Diag(b, k), p, i);
    var c := DiagLo(k) + i;
    var r := HEIGHT - k + c;
    DiagFourFrom(b, p, k, i, r, c);
    assert FourAnyWay(b, p, r, c);
  }

  lemma DiagFourFrom(b: Board, p: Byte, k: int, i: int, r: int, c: int)
    requires FourAt(Diag(b, k), p, i)
    requires c == DiagLo(k) + i && r == HEIGHT - k + c
    ensures FourFrom(b, p, r, c, 1, 1)
  {
    DiagHolds(b, p, k, i, r, c);
    DiagHolds(b, p, k, i + 1, r + 1, c + 1);
    DiagHolds(b, p, k, i + 2, r + 2, c + 2);
    DiagHolds(b, p, k, i + 3, r + 3, c + 3);
  }

  /** Whatever diagonal range is scanned, a reported line is a real four. */
  lemma ScanSound(b: Board, p: Byte, kEnd: int)
    requires ScanWins(b, p, kEnd)
    ensures HasFour(b, p)
  {
    if RowsWin(b, p) {
      var r :| 0 <= r < HEIGHT && FourIn(Row(b, r), p);
      RowFourIsFour(b, p, r);
    } else if ColsWin(b, p) {
      var c :| 0 <= c < WIDTH && FourIn(Col(b, c), p);
      ColFourIsFour(b, p, c);
    } else if AntiWin(b, p, kEnd) {
      var k :| 3 <= k < kEnd && FourIn(Anti(b, k), p);
      AntiFourIsFour(b, p, k);
    } else {
      var k :| 3 <= k < kEnd && FourIn(Diag(b, k), p);
      DiagFourIsFour(b, p, k);
    }
  }

  /** With k running over 3 .. 9 every four on the board lies on a scanned
      line, since every diagonal of length four or more has k in that range. */
  lemma ScanComplete(b: Board, p: Byte)
    requires HasFour(b, p)
    ensures ScanWins(b, p, WIDTH + HEIGHT - 3)
  {
    var r, c :| FourAnyWay(b, p, r, c);
    if FourFrom(b, p, r, c, 0, 1) {
      assert FourAt(Row(b, r), p, c);
    } else if FourFrom(b, p, r, c, 1, 0) {
      assert FourAt(Col(b, c), p, r);
    } else if FourFrom(b, p, r, c, -1, 1) {
      AntiFourScanned(b, p, r, c);
    } else {
      DiagFourScanned(b, p, r, c);
    }
  }

  lemma AntiFourScanned(b: Board, p: Byte, r: int, c: int)
    requires FourFrom(b, p, r, c, -1, 1)
    ensures AntiWin(b, p, WIDTH + HEIGHT - 3)
  {
    var k := r + c;
    var i := c - AntiLo(k);
    assert Anti(b, k)[i] == AntiCell(b, k, i);
    assert Anti(b, k)[i + 1] == AntiCell(b, k, i + 1);
    assert Anti(b, k)[i + 2] == AntiCell(b, k, i + 2);
    assert Anti(b, k)[i + 3] == AntiCell(b, k, i + 3);
    assert FourAt(Anti(b, k), p, i);
  }

  lemma DiagFourScanned(b: Board, p: Byte, r: int, c: int)
    requires FourFrom(b, p, r, c, 1, 1)
    ensures DiagWin(b, p, WIDTH + HEIGHT - 3)
  {
    var k := HEIGHT - r + c;
    var i := c - DiagLo(k);
    assert Diag(b, k)[i] == DiagCell(b, k, i);
    assert Diag(b, k)[i + 1] == DiagCell(b, k, i + 1);
    assert Diag(b, k)[i + 2] == DiagCell(b, k, i + 2);
    assert Diag(b, k)[i + 3] == DiagCell(b, k, i + 3);
    assert FourAt(Diag(b, k), p, i);
  }
}
