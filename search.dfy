/** Depth-limited minimax with alpha-beta pruning, as the pruning engine runs
    it, proved against plain minimax. Player 1 (the engine) maximizes and
    player 2 (the human) minimizes. */
module Search {
  import opened Boards
  import opened Lines
  import opened Terminal
  import opened Heuristic

  /** i32::MAX >> 1: the value of a won position. */
  const SCORE_MAX: int := 0x3FFF_FFFF
  const I32_MIN: int := -0x8000_0000
  const I32_MAX: int := 0x7FFF_FFFF
  const USIZE_MODULUS: int := 0x1_0000_0000_0000_0000

  /** The side that moves at a node. */
  function Mover(maximizing: bool): Byte
  {
    if maximizing then PLAYER_IA else PLAYER
  }

  /** Plain minimax, the value the search must find at a node: a draw is
      worth 0 before any win is looked at; at a maximizing node a four of
      player 2 is worth -SCORE_MAX, at a minimizing node a four of player 1
      is worth SCORE_MAX; at the depth limit the heuristic decides; otherwise
      the best child value for the side to move. */
  ghost function Score(b: Board, depth: nat, maxDepth: nat, maximizing: bool): int
    decreases EmptyCount(b), 1, 0
  {
    if IsDraw(b) then 0
    else if maximizing && HasFour(b, PLAYER) then -SCORE_MAX
    else if !maximizing && HasFour(b, PLAYER_IA) then SCORE_MAX
    else if depth + 1 == maxDepth then Evaluation(b)
    else Best(b, depth, maxDepth, maximizing, |Children(b, Mover(maximizing))|)
  }

  /** The maximum (minimum at a minimizing node) of the values of the first
      `n` children, starting from i32::MIN (i32::MAX). */
  ghost function Best(b: Board, depth: nat, maxDepth: nat, maximizing: bool, n: nat): int
    requires n <= |Children(b, Mover(maximizing))|
    decreases EmptyCount(b), 0, n
  {
    if n == 0 then (if maximizing then I32_MIN else I32_MAX)
    else if maximizing then Max(Best(b, depth, maxDepth, maximizing, n - 1), ChildScore(b, depth, maxDepth, maximizing, n - 1))
    else Min(Best(b, depth, maxDepth, maximizing, n - 1), ChildScore(b, depth, maxDepth, maximizing, n - 1))
  }

  /** The value of child `i` of a node. */
  ghost function ChildScore(b: Board, depth: nat, maxDepth: nat, maximizing: bool, i: nat): int
    requires i < |Children(b, Mover(maximizing))|
    decreases EmptyCount(b), 0, i
  {
    ChildrenShrink(b, Mover(maximizing), i);
    Score(Children(b, Mover(maximizing))[i].1, depth + 1, maxDepth, !maximizing)
  }

  /** Every value plain minimax gives lies in [-SCORE_MAX, SCORE_MAX]. */
  lemma {:induction false} ScoreBounds(b: Board, depth: nat, maxDepth: nat, maximizing: bool)
    ensures -SCORE_MAX <= Score(b, depth, maxDepth, maximizing) <= SCORE_MAX
    decreases EmptyCount(b), 1, 0
  {
    if IsDraw(b) || (maximizing && HasFour(b, PLAYER)) || (!maximizing && HasFour(b, PLAYER_IA)) {
    } else if depth + 1 == maxDepth {
      EvaluationBounds(b);
    } else {
      NoChildrenIffDraw(b, Mover(maximizing));
      BestBounds(b, depth, maxDepth, maximizing, |Children(b, Mover(maximizing))|);
    }
  }

  lemma {:induction false} BestBounds(b: Board, depth: nat, maxDepth: nat, maximizing: bool, n: nat)
    requires 1 <= n <= |Children(b, Mover(maximizing))|
    ensures -SCORE_MAX <= Best(b, depth, maxDepth, maximizing, n) <= SCORE_MAX
    decreases EmptyCount(b), 0, n
  {
    ChildrenShrink(b, Mover(maximizing), n - 1);
    ScoreBounds(Children(b, Mover(maximizing))[n - 1].1, depth + 1, maxDepth, !maximizing);
    assert -SCORE_MAX <= ChildScore(b, depth, maxDepth, maximizing, n - 1) <= SCORE_MAX;
    if n > 1 {
      BestBounds(b, depth, maxDepth, maximizing, n - 1);
    }
  }

  /** Best over more children is no worse for the side to move. */
  lemma {:induction false} BestMonotone(b: Board, depth: nat, maxDepth: nat, maximizing: bool, m: nat, n: nat)
    requires m <= n <= |Children(b, Mover(maximizing))|
    ensures maximizing ==> Best(b, depth, maxDepth, maximizing, m) <= Best(b, depth, maxDepth, maximizing, n)
    ensures !maximizing ==> Best(b, depth, maxDepth, maximizing, m) >= Best(b, depth, maxDepth, maximizing, n)
    decreases n
  {
    if m < n {
      BestMonotone(b, depth, maxDepth, maximizing, m, n - 1);
    }
  }

  /** Best over the first n children bounds each of their values. */
  lemma {:induction false} BestBoundsChildren(b: Board, depth: nat, maxDepth: nat, maximizing: bool, n: nat)
    requires n <= |Children(b, Mover(maximizing))|
    ensures forall j | 0 <= j < n :: maximizing ==> ChildScore(b, depth, maxDepth, maximizing, j) <= Best(b, depth, maxDepth, maximizing, n)
    ensures forall j | 0 <= j < n :: !maximizing ==> ChildScore(b, depth, maxDepth, maximizing, j) >= Best(b, depth, maxDepth, maximizing, n)
  {
    forall j | 0 <= j < n
      ensures maximizing ==> ChildScore(b, depth, maxDepth, maximizing, j) <= Best(b, depth, maxDepth, maximizing, n)
      ensures !maximizing ==> ChildScore(b, depth, maxDepth, maximizing, j) >= Best(b, depth, maxDepth, maximizing, n)
    {
      BestMonotone(b, depth, maxDepth, maximizing, j + 1, n);
    }
  }

  // ----- the column chosen at the root -----

  /** The root (depth 0, maximizing) starts from column WIDTH/2 and moves to
      a child's column whenever that child's value is at least the best seen
      so far. */
  ghost function Choice(b: Board, maxDepth: nat, n: nat): int
    requires n <= |Children(b, PLAYER_IA)|
  {
    if n == 0 then WIDTH / 2
    else if ChildScore(b, 0, maxDepth, true, n - 1) >= Best(b, 0, maxDepth, true, n - 1)
    then Children(b, PLAYER_IA)[n - 1].0
    else Choice(b, maxDepth, n - 1)
  }

  /** Child `i` reaches the best value among the first `n`, and no later one
      among them does. */
  ghost predicate LastBest(b: Board, maxDepth: nat, n: nat, i: nat)
    requires n <= |Children(b, PLAYER_IA)|
  {
    i < n &&
    ChildScore(b, 0, maxDepth, true, i) == Best(b, 0, maxDepth, true, n) &&
    forall j | i < j < n :: ChildScore(b, 0, maxDepth, true, j) < Best(b, 0, maxDepth, true, n)
  }

  lemma {:induction false} ChoiceIsLastBest(b: Board, maxDepth: nat, n: nat)
    requires 1 <= n <= |Children(b, PLAYER_IA)|
    ensures exists i | 0 <= i < n :: LastBest(b, maxDepth, n, i) && Choice(b, maxDepth, n) == Children(b, PLAYER_IA)[i].0
  {
    ChildrenShrink(b, PLAYER_IA, n - 1);
    ScoreBounds(Children(b, PLAYER_IA)[n - 1].1, 1, maxDepth, false);
    var v := ChildScore(b, 0, maxDepth, true, n - 1);
    var prev := Best(b, 0, maxDepth, true, n - 1);
    assert Best(b, 0, maxDepth, true, n) == Max(prev, v);
    if v >= prev {
      assert LastBest(b, maxDepth, n, n - 1);
    } else {
      ChoiceIsLastBest(b, maxDepth, n - 1);
      var i :| 0 <= i < n - 1 && LastBest(b, maxDepth, n - 1, i) && Choice(b, maxDepth, n - 1) == Children(b, PLAYER_IA)[i].0;
      assert LastBest(b, maxDepth, n, i);
    }
  }

  /** What the depth-0 maximizing call returns: a score when the root is
      already decided or at the depth limit, a column otherwise. */
  ghost function RootValue(b: Board, maxDepth: nat): int
  {
    if IsDraw(b) then 0
    else if HasFour(b, PLAYER) then -SCORE_MAX
    else if maxDepth == 1 then Evaluation(b)
    else Choice(b, maxDepth, |Children(b, PLAYER_IA)|)
  }

  /** On an open root the search answers a legal column: the last one among
      those whose child reaches the best value, every child's value being at
      most that best value. */
  lemma RootIsLastBestColumn(b: Board, maxDepth: nat)
    requires !IsDraw(b) && !HasFour(b, PLAYER) && maxDepth != 1
    ensures Legal(b, RootValue(b, maxDepth))
    ensures exists i | 0 <= i < |Children(b, PLAYER_IA)| ::
      LastBest(b, maxDepth, |Children(b, PLAYER_IA)|, i) && RootValue(b, maxDepth) == Children(b, PLAYER_IA)[i].0
    ensures forall j | 0 <= j < |Children(b, PLAYER_IA)| ::
      ChildScore(b, 0, maxDepth, true, j) <= Best(b, 0, maxDepth, true, |Children(b, PLAYER_IA)|)
  {
    NoChildrenIffDraw(b, PLAYER_IA);
    ChildrenAreLegalDrops(b, PLAYER_IA);
    ChoiceIsLastBest(b, maxDepth, |Children(b, PLAYER_IA)|);
    BestBoundsChildren(b, 0, maxDepth, true, |Children(b, PLAYER_IA)|);
  }

  lemma RootValueBounds(b: Board, maxDepth: nat)
    ensures -SCORE_MAX <= RootValue(b, maxDepth) <= SCORE_MAX
  {
    if !IsDraw(b) && !HasFour(b, PLAYER) {
      if maxDepth == 1 {
        EvaluationBounds(b);
      } else {
        RootIsLastBestColumn(b, maxDepth);
      }
    }
  }

  // ----- the search -----

  /** The window property of alpha-beta: a value inside [alpha, beta] is
      returned exactly, one below (above) the window comes back as some
      value below (above) it. */
  predicate Fits(f: int, v: int, alpha: int, beta: int)
  {
    (alpha <= v <= beta ==> f == v) && (v < alpha ==> f < alpha) && (v > beta ==> f > beta)
  }

  /** What a maximizing loop keeps after some children, `best` being their
      plain minimax maximum: alpha raised to it, no cutoff yet, and the
      running score equal to it when it reaches alpha and below alpha
      otherwise. */
  predicate MaxLoop(alpha: int, beta: int, a: int, score: int, best: int)
  {
    a == Max(alpha, best) && a <= beta && score <= beta &&
    (best >= alpha ==> score == best) && (best < alpha ==> score < alpha)
  }

  /** One child of a maximizing node, on plain numbers: `v` is the child's
      value and `f` what its search returned. The new score max(f, score)
      passes beta exactly when `v` does, and otherwise the loop's facts carry
      over to max(best, v). */
  lemma MaxStep(alpha: int, beta: int, a: int, score: int, best: int, v: int, f: int)
    requires MaxLoop(alpha, beta, a, score, best) && Fits(f, v, a, beta)
    ensures (Max(f, score) > beta) == (v > beta)
    ensures v <= beta ==> MaxLoop(alpha, beta, Max(a, f), Max(f, score), Max(best, v))
  {
  }

  predicate MinLoop(alpha: int, beta: int, bt: int, score: int, best: int)
  {
    bt == Min(beta, best) && alpha <= bt && score >= alpha &&
    (best <= beta ==> score == best) && (best > beta ==> score > beta)
  }

  lemma MinStep(alpha: int, beta: int, bt: int, score: int, best: int, v: int, f: int)
    requires MinLoop(alpha, beta, bt, score, best) && Fits(f, v, alpha, bt)
    ensures (Min(f, score) < alpha) == (v < alpha)
    ensures v >= alpha ==> MinLoop(alpha, beta, Min(bt, f), Min(f, score), Min(best, v))
  {
  }

  /** At the root, with the full window, the running score moves to child
      `i` exactly when plain minimax's choice does: when that child's value
      is at least the best so far. */
  lemma RootStep(b: Board, maxDepth: nat, i: nat, a: int, score: int, f: int)
    requires i < |Children(b, PLAYER_IA)|
    requires MaxLoop(-SCORE_MAX, SCORE_MAX, a, score, Best(b, 0, maxDepth, true, i))
    requires i == 0 ==> score == I32_MIN
    requires Fits(f, Score(Children(b, PLAYER_IA)[i].1, 1, maxDepth, false), a, SCORE_MAX)
    ensures Choice(b, maxDepth, i + 1) == if f >= score then Children(b, PLAYER_IA)[i].0 else Choice(b, maxDepth, i)
    ensures ChildScore(b, 0, maxDepth, true, i) <= SCORE_MAX
  {
    ChildrenShrink(b, PLAYER_IA, i);
    ScoreBounds(Children(b, PLAYER_IA)[i].1, 1, maxDepth, false);
    if i > 0 {
      BestBounds(b, 0, maxDepth, true, i);
    }
  }

  /** Called with the full window [-SCORE_MAX, SCORE_MAX], as solve does at
      the root, a search that fits the window returns exactly the plain
      minimax value. */
  lemma FullWindowIsExact(f: int, b: Board, depth: nat, maxDepth: nat, maximizing: bool)
    requires Fits(f, Score(b, depth, maxDepth, maximizing), -SCORE_MAX, SCORE_MAX)
    ensures f == Score(b, depth, maxDepth, maximizing)
  {
    ScoreBounds(b, depth, maxDepth, maximizing);
  }

  /** One pass of the maximizing loop over child `i`, `f` being what the
      child's search returned: either the new score passes beta, and it is
      then a correct answer for the whole node, or the loop's facts hold for
      the first i + 1 children with alpha raised to max(alpha, f). */
  lemma MaxChild(b: Board, depth: nat, maxDepth: nat, alpha: int, beta: int, i: nat, a: int, score: int, f: int)
    requires i < |Children(b, PLAYER_IA)|
    requires MaxLoop(alpha, beta, a, score, Best(b, depth, maxDepth, true, i))
    requires Fits(f, Score(Children(b, PLAYER_IA)[i].1, depth + 1, maxDepth, false), a, beta)
    ensures Max(f, score) > beta ==>
      Fits(Max(f, score), Best(b, depth, maxDepth, true, |Children(b, PLAYER_IA)|), alpha, beta)
    ensures Max(f, score) <= beta ==>
      MaxLoop(alpha, beta, Max(a, f), Max(f, score), Best(b, depth, maxDepth, true, i + 1))
  {
    var prev := Best(b, depth, maxDepth, true, i);
    var v := ChildScore(b, depth, maxDepth, true, i);
    assert Best(b, depth, maxDepth, true, i + 1) == Max(prev, v);
    MaxStep(alpha, beta, a, score, prev, v, f);
    if Max(f, score) > beta {
      BestMonotone(b, depth, maxDepth, true, i + 1, |Children(b, PLAYER_IA)|);
    }
  }

  /** One pass of the minimizing loop over child `i`. */
  lemma MinChild(b: Board, depth: nat, maxDepth: nat, alpha: int, beta: int, i: nat, bt: int, score: int, f: int)
    requires i < |Children(b, PLAYER)|
    requires MinLoop(alpha, beta, bt, score, Best(b, depth, maxDepth, false, i))
    requires Fits(f, Score(Children(b, PLAYER)[i].1, depth + 1, maxDepth, true), alpha, bt)
    ensures Min(f, score) < alpha ==>
      Fits(Min(f, score), Best(b, depth, maxDepth, false, |Children(b, PLAYER)|), alpha, beta)
    ensures Min(f, score) >= alpha ==>
      MinLoop(alpha, beta, Min(bt, f), Min(f, score), Best(b, depth, maxDepth, false, i + 1))
  {
    var prev := Best(b, depth, maxDepth, false, i);
    var v := ChildScore(b, depth, maxDepth, false, i);
    assert Best(b, depth, maxDepth, false, i + 1) == Min(prev, v);
    MinStep(alpha, beta, bt, score, prev, v, f);
    if Min(f, score) < alpha {
      BestMonotone(b, depth, maxDepth, false, i + 1, |Children(b, PLAYER)|);
    }
  }

  /** The source's minimax. Below the root it returns the plain minimax
      value whenever that lies in the window and a bound on the right side
      of the window otherwise (with the full window, the exact value: see
      FullWindowIsExact). At the root, called as solve calls it, it returns the value or column
      RootValue describes. */
  method Minimax(b: Board, depth: nat, maxDepth: nat, maximizing: bool, alpha: int, beta: int) returns (r: int)
    requires I32_MIN <= alpha <= beta <= I32_MAX
    ensures depth > 0 ==> Fits(r, Score(b, depth, maxDepth, maximizing), alpha, beta)
    ensures depth > 0 ==> -SCORE_MAX <= r <= SCORE_MAX
    ensures depth == 0 && maximizing && alpha == -SCORE_MAX && beta == SCORE_MAX ==> r == RootValue(b, maxDepth)
    decreases EmptyCount(b)
  {
    if IsDraw(b) {
      return 0;
    }
    if maximizing {
      var won := PlayerWon(b, PLAYER, DIAG_END);
      if won {
        return -SCORE_MAX;
      }
    }
    if !maximizing {
      var won := PlayerWon(b, PLAYER_IA, DIAG_END);
      if won {
        return SCORE_MAX;
      }
    }
    if depth + 1 == maxDepth {
      r := EvaluatePosition(b);
      return;
    }
    var column := WIDTH / 2;
    var score: int;
    if maximizing {
      score, column := MaxNode(b, depth, maxDepth, alpha, beta);
    } else {
      score, column := MinNode(b, depth, maxDepth, alpha, beta);
    }
    if depth == 0 {
      return column;
    }
    return score;
  }

  /** The maximizing branch of minimax: children of player 1's moves, ties
      moving the column to the later child, a cutoff once the score passes
      beta, alpha raised to each child's value. */
  method MaxNode(b: Board, depth: nat, maxDepth: nat, alpha: int, beta: int) returns (score: int, column: int)
    requires I32_MIN <= alpha <= beta <= I32_MAX
    requires !IsDraw(b)
    ensures Fits(score, Best(b, depth, maxDepth, true, |Children(b, PLAYER_IA)|), alpha, beta)
    ensures -SCORE_MAX <= score <= SCORE_MAX
    ensures depth == 0 && alpha == -SCORE_MAX && beta == SCORE_MAX ==>
      column == Choice(b, maxDepth, |Children(b, PLAYER_IA)|)
    decreases EmptyCount(b), 0
  {
    NoChildrenIffDraw(b, PLAYER_IA);
    column := WIDTH / 2;
    score := I32_MIN;
    var kids := GenerateNextPosition(b, PLAYER_IA);
    var a := alpha;
    ghost var root := depth == 0 && alpha == -SCORE_MAX && beta == SCORE_MAX;
    var i := 0;
    while i < |kids|
      invariant 0 <= i <= |kids| && kids == Children(b, PLAYER_IA)
      invariant MaxLoop(alpha, beta, a, score, Best(b, depth, maxDepth, true, i))
      invariant i == 0 ==> score == I32_MIN
      invariant i > 0 ==> -SCORE_MAX <= score <= SCORE_MAX
      invariant root ==> column == Choice(b, maxDepth, i)
    {
      var (col, next) := kids[i];
      ChildrenShrink(b, PLAYER_IA, i);
      var newScore := Minimax(next, depth + 1, maxDepth, false, a, beta);
      MaxChild(b, depth, maxDepth, alpha, beta, i, a, score, newScore);
      if root {
        RootStep(b, maxDepth, i, a, score, newScore);
      }
      if newScore >= score {
        score := newScore;
        column := col;
      }
      if score > beta {
        return;
      }
      a := Max(a, newScore);
      i := i + 1;
    }
  }

  /** The minimizing branch: children of player 2's moves, a cutoff once the
      score falls below alpha, beta lowered to each child's value. */
  method MinNode(b: Board, depth: nat, maxDepth: nat, alpha: int, beta: int) returns (score: int, column: int)
    requires I32_MIN <= alpha <= beta <= I32_MAX
    requires !IsDraw(b)
    ensures Fits(score, Best(b, depth, maxDepth, false, |Children(b, PLAYER)|), alpha, beta)
    ensures -SCORE_MAX <= score <= SCORE_MAX
    decreases EmptyCount(b), 0
  {
    NoChildrenIffDraw(b, PLAYER);
    column := WIDTH / 2;
    score := I32_MAX;
    var kids := GenerateNextPosition(b, PLAYER);
    var bt := beta;
    var i := 0;
    while i < |kids|
      invariant 0 <= i <= |kids| && kids == Children(b, PLAYER)
      invariant MinLoop(alpha, beta, bt, score, Best(b, depth, maxDepth, false, i))
      invariant i == 0 ==> score == I32_MAX
      invariant i > 0 ==> -SCORE_MAX <= score <= SCORE_MAX
    {
      var (col, next) := kids[i];
      ChildrenShrink(b, PLAYER, i);
      var newScore := Minimax(next, depth + 1, maxDepth, true, alpha, bt);
      MinChild(b, depth, maxDepth, alpha, beta, i, bt, score, newScore);
      if newScore <= score {
        score := newScore;
        column := col;
      }
      if score < alpha {
        return;
      }
      bt := Min(bt, newScore);
      i := i + 1;
    }
  }

  /** `x as usize` for an i32 `x`: sign extension, so a negative value wraps
      around to x + 2^64. */
  function AsUsize(x: int): (u: nat)
    requires I32_MIN <= x <= I32_MAX
    ensures u < USIZE_MODULUS && (u - x) % USIZE_MODULUS == 0
  {
    if x < 0 then x + USIZE_MODULUS else x
  }

  /** The source's solve: the depth is cast to usize, the root search runs
      with the full window, and its answer is cast to usize. On an open root
      with any depth but 1 the answer is a legal column: the last of the
      columns whose child reaches the best value. */
  method Solve(b: Board, depth: int) returns (col: nat)
    requires I32_MIN <= depth <= I32_MAX
    ensures -SCORE_MAX <= RootValue(b, AsUsize(depth)) <= SCORE_MAX &&
      col == AsUsize(RootValue(b, AsUsize(depth)))
    ensures !IsDraw(b) && !HasFour(b, PLAYER) && depth != 1 ==>
      Legal(b, col) &&
      exists i | 0 <= i < |Children(b, PLAYER_IA)| ::
        LastBest(b, AsUsize(depth), |Children(b, PLAYER_IA)|, i) && col == Children(b, PLAYER_IA)[i].0
  {
    var r := Minimax(b, 0, AsUsize(depth), true, -SCORE_MAX, SCORE_MAX);
    RootValueBounds(b, AsUsize(depth));
    col := AsUsize(r);
    if !IsDraw(b) && !HasFour(b, PLAYER) && depth != 1 {
      RootIsLastBestColumn(b, AsUsize(depth));
    }
  }
}
