/** The 7x6 board, stored row-major with row 0 at the bottom, and the
    gravity drop that produces the children of a position. */
module Boards {

  const WIDTH: nat := 7
  const HEIGHT: nat := 6
  const CELLS: nat := WIDTH * HEIGHT

  /** An unsigned 8-bit cell value. */
  type Byte = x: int | 0 <= x < 256

  const EMPTY: Byte := 0
  const PLAYER_IA: Byte := 1
  const PLAYER: Byte := 2

  /** A fixed-size array of 42 cells. */
  type Board = s: seq<Byte> | |s| == CELLS witness EmptyBoard()

  function EmptyBoard(): (b: seq<Byte>)
    ensures |b| == CELLS && forall i :: 0 <= i < CELLS ==> b[i] == EMPTY
  {
    seq(CELLS, i => EMPTY)
  }

  /** Index of the cell in row `row` and column `col`: row-major from the
      bottom row, so an on-board position lands inside the array and its row
      and column can be read back from the index. */
  function Idx(row: int, col: int): (i: int)
    ensures OnBoard(row, col) ==> 0 <= i < CELLS && i / WIDTH == row && i % WIDTH == col
  {
    row * WIDTH + col
  }

  predicate OnBoard(row: int, col: int)
  {
    0 <= row < HEIGHT && 0 <= col < WIDTH
  }

  lemma IdxInRange(row: int, col: int)
    requires OnBoard(row, col)
    ensures 0 <= Idx(row, col) < CELLS
  {
  }

  function Cell(b: Board, row: int, col: int): Byte
    requires OnBoard(row, col)
  {
    b[Idx(row, col)]
  }

  /** Writing one position through the index changes that cell and no
      other. */
  lemma CellUpdate(b: Board, r: int, c: int, x: Byte, row: int, col: int)
    requires OnBoard(r, c) && OnBoard(row, col)
    ensures Cell(b[Idx(r, c) := x], row, col) == if row == r && col == c then x else Cell(b, row, col)
  {
    if row != r || col != c {
      assert Idx(row, col) / WIDTH == row && Idx(row, col) % WIDTH == col;
      assert Idx(row, col) != Idx(r, c);
    }
  }

  /** The 42 positions address every cell: two boards are equal exactly when
      they agree on every position. */
  lemma CellsDetermineBoard(b: Board, b': Board)
    ensures b == b' <==> forall row, col | OnBoard(row, col) :: Cell(b, row, col) == Cell(b', row, col)
  {
    if forall row, col | OnBoard(row, col) :: Cell(b, row, col) == Cell(b', row, col) {
      forall i | 0 <= i < CELLS
        ensures b[i] == b'[i]
      {
        var row, col := i / WIDTH, i % WIDTH;
        assert OnBoard(row, col) && Idx(row, col) == i;
        assert Cell(b, row, col) == Cell(b', row, col);
      }
    }
  }

  /** A column can be played while its top cell is empty. */
  predicate Legal(b: Board, col: int)
  {
    0 <= col < WIDTH && Top(b, col) == EMPTY
  }

  /** No empty cell lies under an occupied one. */
  ghost predicate Gravity(b: Board)
  {
    forall row, col :: 0 < row < HEIGHT && 0 <= col < WIDTH && b[Idx(row, col)] != EMPTY ==>
      b[Idx(row - 1, col)] != EMPTY
  }

  /** Number of cells of `s` equal to `v`. */
  function Count(s: seq<Byte>, v: Byte): nat
  {
    if s == [] then 0 else Count(s[..|s| - 1], v) + (if s[|s| - 1] == v then 1 else 0)
  }

  lemma {:induction false} CountUpdate(s: seq<Byte>, i: nat, x: Byte, v: Byte)
    requires i < |s|
    ensures Count(s[i := x], v) ==
      Count(s, v) - (if s[i] == v then 1 else 0) + (if x == v then 1 else 0)
  {
    var n := |s| - 1;
    if i < n {
      assert s[i := x][..n] == s[..n][i := x];
      CountUpdate(s[..n], i, x, v);
    } else {
      assert s[i := x][..n] == s[..n];
    }
  }

  function EmptyCount(b: Board): nat
  {
    Count(b, EMPTY)
  }

  /** The top cell of column `col`. While it is empty the column has room:
      the search for its lowest empty row succeeds. */
  function Top(b: Board, col: int): (t: Byte)
    requires 0 <= col < WIDTH
    ensures t == EMPTY ==> LowestEmpty(b, col) < HEIGHT
  {
    Cell(b, HEIGHT - 1, col)
  }

  /** The source's is_draw: the whole top row is occupied. */
  predicate IsDraw(b: Board)
  {
    forall col | 0 <= col < WIDTH :: Top(b, col) != EMPTY
  }

  /** Under gravity an occupied cell has only occupied cells below it. */
  lemma {:induction false} GravityBelow(b: Board, row: int, col: int, q: int)
    requires Gravity(b) && OnBoard(row, col) && 0 <= q <= row
    requires Cell(b, row, col) != EMPTY
    ensures Cell(b, q, col) != EMPTY
    decreases row - q
  {
    if q < row {
      GravityBelow(b, row - 1, col, q);
    }
  }

  /** Under gravity a column has room exactly when its top cell is empty:
      the filter on the top row and the search for the lowest empty row
      agree. */
  lemma TopEmptyIffRoom(b: Board, col: int)
    requires 0 <= col < WIDTH && Gravity(b)
    ensures Top(b, col) == EMPTY <==> LowestEmpty(b, col) < HEIGHT
  {
    if Top(b, col) != EMPTY && LowestEmpty(b, col) < HEIGHT {
      GravityBelow(b, HEIGHT - 1, col, LowestEmpty(b, col));
    }
  }

  lemma {:induction false} CountZero(s: seq<Byte>, v: Byte)
    ensures Count(s, v) == 0 <==> forall i | 0 <= i < |s| :: s[i] != v
  {
    if s != [] {
      CountZero(s[..|s| - 1], v);
      assert forall i | 0 <= i < |s| - 1 :: s[..|s| - 1][i] == s[i];
    }
  }

  /** On a board that respects gravity, is_draw holds exactly when the whole
      board is full. */
  lemma DrawIsFull(b: Board)
    requires Gravity(b)
    ensures IsDraw(b) <==> EmptyCount(b) == 0
  {
    CountZero(b, EMPTY);
    if IsDraw(b) {
      forall i | 0 <= i < CELLS
        ensures b[i] != EMPTY
      {
        var row, col := i / WIDTH, i % WIDTH;
        assert OnBoard(row, col) && Idx(row, col) == i;
        assert Top(b, col) != EMPTY;
        GravityBelow(b, HEIGHT - 1, col, row);
      }
    }
    if EmptyCount(b) == 0 {
      forall col | 0 <= col < WIDTH
        ensures Top(b, col) != EMPTY
      {
        assert b[Idx(HEIGHT - 1, col)] != EMPTY;
      }
    }
  }

  /** The first empty row of column `col` at or above `row`, HEIGHT if none. */
  function LowestEmptyFrom(b: Board, col: int, row: nat): (r: nat)
    requires 0 <= col < WIDTH
    decreases HEIGHT - row
    ensures row <= r <= HEIGHT || (row > HEIGHT && r == HEIGHT)
    ensures r < HEIGHT ==> Cell(b, r, col) == EMPTY
    ensures forall q :: row <= q < r && q < HEIGHT ==> Cell(b, q, col) != EMPTY
  {
    if row >= HEIGHT then HEIGHT
    else if Cell(b, row, col) == EMPTY then row
    else LowestEmptyFrom(b, col, row + 1)
  }

  function LowestEmpty(b: Board, col: int): nat
    requires 0 <= col < WIDTH
  {
    LowestEmptyFrom(b, col, 0)
  }

  /** The board after `player` drops a piece into column `col`. */
  function Drop(b: Board, col: int, player: Byte): Board
    requires 0 <= col < WIDTH
  {
    var r := LowestEmpty(b, col);
    if r < HEIGHT then b[Idx(r, col) := player] else b
  }

  /** The lowest empty cell of a legal column is the only one that changes,
      and it receives `player`; gravity and the empty count follow. */
  lemma DropSetsLowestEmpty(b: Board, col: int, player: Byte)
    requires Legal(b, col)
    ensures var r := LowestEmpty(b, col);
      && r < HEIGHT
      && Cell(b, r, col) == EMPTY
      && (forall q :: 0 <= q < r ==> Cell(b, q, col) != EMPTY)
      && Cell(Drop(b, col, player), r, col) == player
      && (forall i :: 0 <= i < CELLS && i != Idx(r, col) ==> Drop(b, col, player)[i] == b[i])
    ensures player != EMPTY ==> EmptyCount(Drop(b, col, player)) == EmptyCount(b) - 1
    ensures player != EMPTY && Gravity(b) ==> Gravity(Drop(b, col, player))
  {
    var r := LowestEmpty(b, col);
    if r == HEIGHT {
      assert false;
    }
    IdxInRange(r, col);
    CountUpdate(b, Idx(r, col), player, EMPTY);
    if player != EMPTY && Gravity(b) {
      var d := Drop(b, col, player);
      forall row, c | 0 < row < HEIGHT && 0 <= c < WIDTH && d[Idx(row, c)] != EMPTY
        ensures d[Idx(row - 1, c)] != EMPTY
      {
        if c == col && row == r {
          assert Cell(b, row - 1, col) != EMPTY;
        } else if c == col && row - 1 == r {
          assert false;
        } else {
          assert Idx(row, c) != Idx(r, col) && Idx(row - 1, c) != Idx(r, col);
        }
      }
    }
  }

  /** Legal children for columns 0 .. n-1 in ascending order, as
      (column, board) pairs. */
  function ChildrenUpTo(b: Board, player: Byte, n: nat): seq<(int, Board)>
    requires n <= WIDTH
  {
    if n == 0 then []
    else
      var next := if Legal(b, n - 1) then [(n - 1, Drop(b, n - 1, player))] else [];
      ChildrenUpTo(b, player, n - 1) + next
  }

  function Children(b: Board, player: Byte): seq<(int, Board)>
  {
    ChildrenUpTo(b, player, WIDTH)
  }

  /** Each child is a legal column below `n` with the board after the drop. */
  lemma {:induction false} ChildrenUpToAreDrops(b: Board, player: Byte, n: nat)
    requires n <= WIDTH
    ensures forall i :: 0 <= i < |ChildrenUpTo(b, player, n)| ==>
      var kid := ChildrenUpTo(b, player, n)[i];
      0 <= kid.0 < n && Legal(b, kid.0) && kid.1 == Drop(b, kid.0, player)
  {
    if n > 0 {
      ChildrenUpToAreDrops(b, player, n - 1);
      var prev := ChildrenUpTo(b, player, n - 1);
      var kids := ChildrenUpTo(b, player, n);
      var next := if Legal(b, n - 1) then [(n - 1, Drop(b, n - 1, player))] else [];
      assert kids == prev + next;
      forall i | 0 <= i < |kids|
        ensures 0 <= kids[i].0 < n && Legal(b, kids[i].0) && kids[i].1 == Drop(b, kids[i].0, player)
      {
        if i < |prev| {
          assert kids[i] == prev[i];
        } else {
          assert |next| == 1 && i == |prev|;
          assert Legal(b, n - 1);
          assert kids[i] == next[0];
        }
      }
    }
  }

  /** The children come in strictly ascending column order. */
  lemma {:induction false} ChildrenUpToAscend(b: Board, player: Byte, n: nat)
    requires n <= WIDTH
    ensures forall i, j :: 0 <= i < j < |ChildrenUpTo(b, player, n)| ==>
      ChildrenUpTo(b, player, n)[i].0 < ChildrenUpTo(b, player, n)[j].0
  {
    if n > 0 {
      ChildrenUpToAscend(b, player, n - 1);
      ChildrenUpToAreDrops(b, player, n - 1);
      var prev := ChildrenUpTo(b, player, n - 1);
      var kids := ChildrenUpTo(b, player, n);
      var next := if Legal(b, n - 1) then [(n - 1, Drop(b, n - 1, player))] else [];
      assert kids == prev + next;
      forall i, j | 0 <= i < j < |kids|
        ensures kids[i].0 < kids[j].0
      {
        assert kids[i] == prev[i];
        if j < |prev| {
          assert kids[j] == prev[j];
        }
      }
    }
  }

  /** Column `col` appears among `kids`. */
  predicate HasChild(kids: seq<(int, Board)>, col: int)
  {
    exists i :: 0 <= i < |kids| && kids[i].0 == col
  }

  /** Every legal column below `n` has a child. */
  lemma {:induction false} ChildrenUpToComplete(b: Board, player: Byte, n: nat)
    requires n <= WIDTH
    ensures forall col :: 0 <= col < n && Legal(b, col) ==> HasChild(ChildrenUpTo(b, player, n), col)
  {
    if n > 0 {
      ChildrenUpToComplete(b, player, n - 1);
      var prev := ChildrenUpTo(b, player, n - 1);
      var kids := ChildrenUpTo(b, player, n);
      var next := if Legal(b, n - 1) then [(n - 1, Drop(b, n - 1, player))] else [];
      assert kids == prev + next;
      forall col | 0 <= col < n && Legal(b, col)
        ensures HasChild(kids, col)
      {
        if col < n - 1 {
          var i :| 0 <= i < |prev| && prev[i].0 == col;
          assert kids[i] == prev[i];
        } else {
          assert kids[|prev|].0 == col;
        }
      }
    }
  }

  /** generate_next_position yields exactly the legal columns, in ascending
      order, each with the board after the drop. */
  lemma ChildrenAreLegalDrops(b: Board, player: Byte)
    ensures forall i :: 0 <= i < |Children(b, player)| ==>
      var kid := Children(b, player)[i];
      Legal(b, kid.0) && kid.1 == Drop(b, kid.0, player)
    ensures forall i, j :: 0 <= i < j < |Children(b, player)| ==>
      Children(b, player)[i].0 < Children(b, player)[j].0
    ensures forall col :: Legal(b, col) ==> HasChild(Children(b, player), col)
  {
    assert Children(b, player) == ChildrenUpTo(b, player, WIDTH);
    ChildrenUpToAreDrops(b, player, WIDTH);
    ChildrenUpToAscend(b, player, WIDTH);
    ChildrenUpToComplete(b, player, WIDTH);
  }

  /** A board has no children exactly when its top row is full. */
  lemma NoChildrenIffDraw(b: Board, player: Byte)
    ensures Children(b, player) == [] <==> IsDraw(b)
  {
    ChildrenAreLegalDrops(b, player);
    if !IsDraw(b) {
      var col :| 0 <= col < WIDTH && Top(b, col) == EMPTY;
      assert Legal(b, col);
    }
    if Children(b, player) != [] {
      var col := Children(b, player)[0].0;
      assert Legal(b, col);
    }
  }

  /** Every child has one empty cell fewer than its parent. */
  lemma ChildrenShrink(b: Board, player: Byte, i: nat)
    requires player != EMPTY
    requires i < |Children(b, player)|
    ensures EmptyCount(Children(b, player)[i].1) == EmptyCount(b) - 1
  {
    ChildrenAreLegalDrops(b, player);
    var kid := Children(b, player)[i];
    DropSetsLowestEmpty(b, kid.0, player);
  }

  /** The source's generate_next_position: copy the board and write the
      first empty cell of each playable column. */
  method GenerateNextPosition(b: Board, player: Byte) returns (kids: seq<(int, Board)>)
    ensures kids == Children(b, player)
  {
    kids := [];
    for col := 0 to WIDTH
      invariant kids == ChildrenUpTo(b, player, col)
    {
      if b[Idx(HEIGHT - 1, col)] == EMPTY {
        var next := new Byte[CELLS](i requires 0 <= i < CELLS => b[i]);
        ghost var lowest := LowestEmpty(b, col);
        DropSetsLowestEmpty(b, col, player);
        for row := 0 to HEIGHT
          invariant next[..] == b
          invariant row <= lowest
        {
          if next[Idx(row, col)] == EMPTY {
            next[Idx(row, col)] := player;
            break;
          }
        }
        kids := kids + [(col, next[..])];
      }
    }
  }
}
