/**
 * The depth-limited fail-soft alpha-beta search of
 * agents/agent_minimax/agent_minimax.py, proved against the plain minimax
 * value of the same game tree.
 */
module Minimax {
  import opened Wrappers
  import opened Board
  import opened Lines
  import opened Heuristic

  // ---------------------------------------------------------------------
  // Scores with -inf and +inf (math.inf)

  /** A search score: an integer, or one of the two infinities alpha, beta and score start from. */
  datatype ExtInt = NegInf | Fin(v: int) | PosInf

  /** a <= b in the usual order with -inf below and +inf above every integer. */
  predicate Le(a: ExtInt, b: ExtInt)
  {
    a.NegInf? || b.PosInf? || (a.Fin? && b.Fin? && a.v <= b.v)
  }

  /** a < b. */
  predicate Lt(a: ExtInt, b: ExtInt)
  {
    !Le(b, a)
  }

  /** Python's max(a, b). */
  function Max(a: ExtInt, b: ExtInt): (m: ExtInt)
    ensures Le(a, m) && Le(b, m) && (m == a || m == b)
  {
    if Lt(a, b) then b else a
  }

  /** Python's min(a, b). */
  function Min(a: ExtInt, b: ExtInt): (m: ExtInt)
    ensures Le(m, a) && Le(m, b) && (m == a || m == b)
  {
    if Lt(b, a) then b else a
  }

  /** The largest of the first n elements of s, -inf when n == 0. */
  function MaxOf(s: seq<ExtInt>, n: nat): ExtInt
    requires n <= |s|
  {
    if n == 0 then NegInf else Max(MaxOf(s, n - 1), s[n - 1])
  }

  /** The smallest of the first n elements of s, +inf when n == 0. */
  function MinOf(s: seq<ExtInt>, n: nat): ExtInt
    requires n <= |s|
  {
    if n == 0 then PosInf else Min(MinOf(s, n - 1), s[n - 1])
  }

  /** MaxOf(s, n) bounds each of the first n elements and, for n > 0, is one of them. */
  lemma {:induction false} MaxOfIsMaximum(s: seq<ExtInt>, n: nat)
    requires n <= |s|
    ensures forall j :: 0 <= j < n ==> Le(s[j], MaxOf(s, n))
    ensures n > 0 ==> exists j :: 0 <= j < n && s[j] == MaxOf(s, n)
  {
    if n == 1 {
      assert MaxOf(s, 1) == Max(NegInf, s[0]);
    } else if n > 1 {
      MaxOfIsMaximum(s, n - 1);
      if MaxOf(s, n) != s[n - 1] {
        var j :| 0 <= j < n - 1 && s[j] == MaxOf(s, n - 1);
      }
    }
  }

  /** MinOf(s, n) bounds each of the first n elements from below and, for n > 0, is one of them. */
  lemma {:induction false} MinOfIsMinimum(s: seq<ExtInt>, n: nat)
    requires n <= |s|
    ensures forall j :: 0 <= j < n ==> Le(MinOf(s, n), s[j])
    ensures n > 0 ==> exists j :: 0 <= j < n && s[j] == MinOf(s, n)
  {
    if n == 1 {
      assert MinOf(s, 1) == Min(PosInf, s[0]);
    } else if n > 1 {
      MinOfIsMinimum(s, n - 1);
      if MinOf(s, n) != s[n - 1] {
        var j :| 0 <= j < n - 1 && s[j] == MinOf(s, n - 1);
      }
    }
  }

  /** Taking in more elements only raises the maximum and lowers the minimum. */
  lemma {:induction false} OfMonotone(s: seq<ExtInt>, i: nat, n: nat)
    requires i <= n <= |s|
    ensures Le(MaxOf(s, i), MaxOf(s, n))
    ensures Le(MinOf(s, n), MinOf(s, i))
    decreases n - i
  {
    if i < n {
      OfMonotone(s, i, n - 1);
    }
  }

  // ---------------------------------------------------------------------
  // The game tree and its minimax value

  /** The terminal test of minimax: check_end_state for the agent is not STILL_PLAYING. */
  predicate Terminal(b: Board, player: Player)
  {
    CheckEndState(b, player) != StillPlaying
  }

  /** The terminal scores: 100000 for the agent's line, else -100000 for the opponent's, else 0. */
  function TerminalScore(b: Board, player: Player): int
  {
    if ConnectedFour(b, player) then 100000
    else if ConnectedFour(b, Opponent(player)) then -100000
    else 0
  }

  /** The piece dropped at this level: the agent's when maximizing, the opponent's otherwise. */
  function Mover(player: Player, maximizing: bool): Player
  {
    if maximizing then player else Opponent(player)
  }

  /**
   * The plain depth-limited minimax value of the position, without
   * pruning: the heuristic at depth 0, the terminal score at a terminal
   * position, else the maximum (agent to move) or minimum (opponent to
   * move) of the values of the children, one per open column.
   */
  function Value(b: Board, depth: nat, player: Player, maximizing: bool): (r: ExtInt)
    ensures r.Fin?
    decreases depth, 3
  {
    if depth == 0 then Fin(HeuristicValue(b, player))
    else if Terminal(b, player) then Fin(TerminalScore(b, player))
    else
      var vs := ChildValues(b, depth, player, maximizing);
      MaxOfIsMaximum(vs, |vs|);
      MinOfIsMinimum(vs, |vs|);
      if maximizing then MaxOf(vs, |vs|) else MinOf(vs, |vs|)
  }

  /** The values of the children of a position, in the order of its open columns. */
  function ChildValues(b: Board, depth: nat, player: Player, maximizing: bool): (vs: seq<ExtInt>)
    requires depth > 0
    ensures |vs| == |OpenColumns(b)|
    ensures forall i :: 0 <= i < |vs| ==> vs[i].Fin?
    decreases depth, 2
  {
    FirstChildValues(b, depth, player, maximizing, |OpenColumns(b)|)
  }

  /** The values of the children in the first n open columns. */
  function FirstChildValues(b: Board, depth: nat, player: Player, maximizing: bool, n: nat): (vs: seq<ExtInt>)
    requires depth > 0 && n <= |OpenColumns(b)|
    ensures |vs| == n
    ensures forall i :: 0 <= i < |vs| ==> vs[i].Fin?
    decreases depth, 1, n
  {
    if n == 0 then []
    else FirstChildValues(b, depth, player, maximizing, n - 1) + [ChildValue(b, OpenColumns(b)[n - 1], depth, player, maximizing)]
  }

  /** The value, one ply less deep, of the position after the side to move drops a piece in column c. */
  function ChildValue(b: Board, c: Column, depth: nat, player: Player, maximizing: bool): (r: ExtInt)
    requires depth > 0
    ensures r.Fin?
    decreases depth, 0
  {
    Value(Drop(b, c, Mover(player, maximizing)), depth - 1, player, !maximizing)
  }

  /**
   * Below depth 0 and away from terminal positions, the value is the value
   * of one child, the best of them for the side to move.
   */
  lemma ValueIsBestChild(b: Board, depth: nat, player: Player, maximizing: bool)
    requires depth > 0 && !Terminal(b, player)
    ensures var vs := ChildValues(b, depth, player, maximizing);
      |vs| > 0 &&
      (exists k :: 0 <= k < |vs| && vs[k] == Value(b, depth, player, maximizing)) &&
      (maximizing ==> forall j :: 0 <= j < |vs| ==> Le(vs[j], Value(b, depth, player, maximizing))) &&
      (!maximizing ==> forall j :: 0 <= j < |vs| ==> Le(Value(b, depth, player, maximizing), vs[j]))
  {
    var vs := ChildValues(b, depth, player, maximizing);
    MaxOfIsMaximum(vs, |vs|);
    MinOfIsMinimum(vs, |vs|);
  }

  /** Below depth 0 and away from terminal positions there is a child, and the value is the best child value. */
  lemma LayerValue(b: Board, depth: nat, player: Player, maximizing: bool)
    requires depth > 0 && !Terminal(b, player)
    ensures |ChildValues(b, depth, player, maximizing)| > 0
    ensures Value(b, depth, player, maximizing)
         == if maximizing then MaxOf(ChildValues(b, depth, player, maximizing), |OpenColumns(b)|)
            else MinOf(ChildValues(b, depth, player, maximizing), |OpenColumns(b)|)
  {
    ValueIsBestChild(b, depth, player, maximizing);
  }

  /** The i-th of the first n child values belongs to the i-th open column. */
  lemma {:induction false} FirstChildValuesAt(b: Board, depth: nat, player: Player, maximizing: bool, n: nat, i: nat)
    requires depth > 0 && i < n <= |OpenColumns(b)|
    ensures FirstChildValues(b, depth, player, maximizing, n)[i] == ChildValue(b, OpenColumns(b)[i], depth, player, maximizing)
    decreases n
  {
    if i < n - 1 {
      FirstChildValuesAt(b, depth, player, maximizing, n - 1, i);
    }
  }

  /** Each child value is the value of its column's child. */
  lemma ChildValuesAreChildren(b: Board, depth: nat, player: Player, maximizing: bool)
    requires depth > 0
    ensures forall k {:trigger ChildValue(b, OpenColumns(b)[k], depth, player, maximizing)} ::
      0 <= k < |ChildValues(b, depth, player, maximizing)| ==>
      ChildValues(b, depth, player, maximizing)[k] == ChildValue(b, OpenColumns(b)[k], depth, player, maximizing)
  {
    forall k | 0 <= k < |ChildValues(b, depth, player, maximizing)|
      ensures ChildValues(b, depth, player, maximizing)[k] == ChildValue(b, OpenColumns(b)[k], depth, player, maximizing)
    {
      FirstChildValuesAt(b, depth, player, maximizing, |OpenColumns(b)|, k);
    }
  }

  /** The i-th child value is the value of the position after a drop in the i-th open column. */
  lemma ChildValuesAt(b: Board, depth: nat, player: Player, maximizing: bool, i: nat)
    requires depth > 0 && i < |OpenColumns(b)|
    ensures ChildValues(b, depth, player, maximizing)[i]
         == Value(Drop(b, OpenColumns(b)[i], Mover(player, maximizing)), depth - 1, player, !maximizing)
  {
    FirstChildValuesAt(b, depth, player, maximizing, |OpenColumns(b)|, i);
  }

  // ---------------------------------------------------------------------
  // Fail-soft alpha-beta

  /**
   * r is a fail-soft alpha-beta answer for the true value v in the window
   * (alpha, beta): an upper bound at or below alpha when v is, exactly v
   * inside the window, and a lower bound at or above beta when v is.
   */
  predicate FailSoft(alpha: ExtInt, beta: ExtInt, r: ExtInt, v: ExtInt)
  {
    && (Le(v, alpha) ==> Le(v, r) && Le(r, alpha))
    && (Lt(alpha, v) && Lt(v, beta) ==> r == v)
    && (Le(beta, v) ==> Le(beta, r) && Le(r, v))
  }

  /** k is the first index at which vs holds s. */
  predicate FirstAt(vs: seq<ExtInt>, k: int, s: ExtInt)
  {
    0 <= k < |vs| && vs[k] == s && forall j :: 0 <= j < k ==> vs[j] != s
  }

  /** A maximizing step keeps the running score a fail-soft answer for the running maximum. */
  lemma MaxStep(alpha: ExtInt, beta: ExtInt, best: ExtInt, m: ExtInt, r: ExtInt, v: ExtInt)
    requires Lt(alpha, beta) ==> Lt(Max(alpha, best), beta) && FailSoft(alpha, beta, best, m)
    requires Lt(Max(alpha, best), beta) ==> FailSoft(Max(alpha, best), beta, r, v)
    ensures Lt(alpha, beta) ==> FailSoft(alpha, beta, Max(best, r), Max(m, v))
  {
  }

  /** A minimizing step, the mirror image of MaxStep. */
  lemma MinStep(alpha: ExtInt, beta: ExtInt, best: ExtInt, m: ExtInt, r: ExtInt, v: ExtInt)
    requires Lt(alpha, beta) ==> Lt(alpha, Min(beta, best)) && FailSoft(alpha, beta, best, m)
    requires Lt(alpha, Min(beta, best)) ==> FailSoft(alpha, Min(beta, best), r, v)
    ensures Lt(alpha, beta) ==> FailSoft(alpha, beta, Min(best, r), Min(m, v))
  {
  }

  /** A cut-off at a maximizing node: a score at or above beta bounds every larger true value. */
  lemma MaxCutoff(alpha: ExtInt, beta: ExtInt, best: ExtInt, m: ExtInt, v: ExtInt)
    requires Lt(alpha, beta) ==> FailSoft(alpha, beta, best, m)
    requires Le(beta, Max(alpha, best)) && Le(m, v)
    ensures Lt(alpha, beta) ==> FailSoft(alpha, beta, best, v)
  {
  }

  /** A cut-off at a minimizing node: a score at or below alpha bounds every smaller true value. */
  lemma MinCutoff(alpha: ExtInt, beta: ExtInt, best: ExtInt, m: ExtInt, v: ExtInt)
    requires Lt(alpha, beta) ==> FailSoft(alpha, beta, best, m)
    requires Le(Min(beta, best), alpha) && Le(v, m)
    ensures Lt(alpha, beta) ==> FailSoft(alpha, beta, best, v)
  {
  }

  /**
   * The state of the maximizing loop after the first i children: a is
   * max(alpha, score); score is -inf before the first child and then a
   * fail-soft answer for the largest of the first i child values; with the
   * full window it is that value, held first by child w.
   */
  ghost predicate MaxLoop(alpha: ExtInt, beta: ExtInt, vs: seq<ExtInt>, i: nat, score: ExtInt, w: int, a: ExtInt)
  {
    && i <= |vs|
    && a == Max(alpha, score)
    && (i == 0 ==> score == NegInf)
    && (i > 0 ==> score.Fin? && 0 <= w < i)
    && (Lt(alpha, beta) ==> FailSoft(alpha, beta, score, MaxOf(vs, i)))
    && (alpha == NegInf && beta == PosInf && i > 0 ==> FirstAt(vs, w, score))
  }

  /** The state of the minimizing loop, the mirror image of MaxLoop with b == min(beta, score). */
  ghost predicate MinLoop(alpha: ExtInt, beta: ExtInt, vs: seq<ExtInt>, i: nat, score: ExtInt, w: int, b: ExtInt)
  {
    && i <= |vs|
    && b == Min(beta, score)
    && (i == 0 ==> score == PosInf)
    && (i > 0 ==> score.Fin? && 0 <= w < i)
    && (Lt(alpha, beta) ==> FailSoft(alpha, beta, score, MinOf(vs, i)))
    && (alpha == NegInf && beta == PosInf && i > 0 ==> FirstAt(vs, w, score))
  }

  /**
   * One pass of the maximizing loop: the child's score nextScore, searched
   * in the window (a, beta), replaces score when it is strictly larger,
   * and the loop state moves on to the first i + 1 children.
   */
  lemma MaxLoopStep(alpha: ExtInt, beta: ExtInt, vs: seq<ExtInt>, i: nat, previous: ExtInt, pw: int, a: ExtInt,
                    nextScore: ExtInt, score: ExtInt, w: int)
    requires i < |vs| && forall j :: 0 <= j < |vs| ==> vs[j].Fin?
    requires MaxLoop(alpha, beta, vs, i, previous, pw, a) && (Lt(alpha, beta) ==> Lt(a, beta))
    requires nextScore.Fin? && (Lt(a, beta) ==> FailSoft(a, beta, nextScore, vs[i]))
    requires score == (if Lt(previous, nextScore) then nextScore else previous)
    requires w == (if Lt(previous, nextScore) then i else pw)
    ensures MaxLoop(alpha, beta, vs, i + 1, score, w, Max(a, score))
  {
    MaxStep(alpha, beta, previous, MaxOf(vs, i), nextScore, vs[i]);
    assert score == Max(previous, nextScore);
    if alpha == NegInf && beta == PosInf && i > 0 {
      MaxOfIsMaximum(vs, i);
    }
  }

  /** One pass of the minimizing loop, the mirror image of MaxLoopStep. */
  lemma MinLoopStep(alpha: ExtInt, beta: ExtInt, vs: seq<ExtInt>, i: nat, previous: ExtInt, pw: int, b: ExtInt,
                    nextScore: ExtInt, score: ExtInt, w: int)
    requires i < |vs| && forall j :: 0 <= j < |vs| ==> vs[j].Fin?
    requires MinLoop(alpha, beta, vs, i, previous, pw, b) && (Lt(alpha, beta) ==> Lt(alpha, b))
    requires nextScore.Fin? && (Lt(alpha, b) ==> FailSoft(alpha, b, nextScore, vs[i]))
    requires score == (if Lt(nextScore, previous) then nextScore else previous)
    requires w == (if Lt(nextScore, previous) then i else pw)
    ensures MinLoop(alpha, beta, vs, i + 1, score, w, Min(b, score))
  {
    MinStep(alpha, beta, previous, MinOf(vs, i), nextScore, vs[i]);
    assert score == Min(previous, nextScore);
    if alpha == NegInf && beta == PosInf && i > 0 {
      MinOfIsMinimum(vs, i);
    }
  }

  /**
   * The maximizing loop has ended, after every child or at a cut-off
   * (alpha >= beta): the score is then a fail-soft answer for the value of
   * the whole node, and with the full window, which never cuts off, it is
   * that value, held first by child w.
   */
  lemma MaxLoopResult(alpha: ExtInt, beta: ExtInt, vs: seq<ExtInt>, i: nat, score: ExtInt, w: int, a: ExtInt)
    requires MaxLoop(alpha, beta, vs, i, score, w, a)
    requires i == |vs| || (0 < i && Le(beta, a))
    ensures Lt(alpha, beta) ==> FailSoft(alpha, beta, score, MaxOf(vs, |vs|))
    ensures alpha == NegInf && beta == PosInf && |vs| > 0 ==> FirstAt(vs, w, score)
  {
    if i < |vs| {
      OfMonotone(vs, i, |vs|);
      MaxCutoff(alpha, beta, score, MaxOf(vs, i), MaxOf(vs, |vs|));
    }
  }

  /** The end of the minimizing loop, the mirror image of MaxLoopResult. */
  lemma MinLoopResult(alpha: ExtInt, beta: ExtInt, vs: seq<ExtInt>, i: nat, score: ExtInt, w: int, b: ExtInt)
    requires MinLoop(alpha, beta, vs, i, score, w, b)
    requires i == |vs| || (0 < i && Le(b, alpha))
    ensures Lt(alpha, beta) ==> FailSoft(alpha, beta, score, MinOf(vs, |vs|))
    ensures alpha == NegInf && beta == PosInf && |vs| > 0 ==> FirstAt(vs, w, score)
  {
    if i < |vs| {
      OfMonotone(vs, i, |vs|);
      MinCutoff(alpha, beta, score, MinOf(vs, i), MinOf(vs, |vs|));
    }
  }

  /**
   * minimax: at depth 0 the heuristic, at a terminal position the terminal
   * score, both without a column; otherwise the loop over the open
   * columns of the side to move.  The returned score is a fail-soft
   * answer for the plain minimax value; with the full window (-inf, +inf)
   * it is that value, and the column is the lowest open column whose
   * child has it.
   */
  method Minimax(board: Board, depth: nat, alpha: ExtInt, beta: ExtInt, player: Player, maximizingPlayer: bool)
    returns (column: Option<Column>, score: ExtInt)
    ensures score.Fin?
    ensures depth == 0 ==> column == None && score == Fin(HeuristicValue(board, player))
    ensures depth > 0 && Terminal(board, player) ==> column == None && score == Fin(TerminalScore(board, player))
    ensures depth > 0 && !Terminal(board, player) ==> column.Some? && column.value in OpenColumns(board)
    ensures Lt(alpha, beta) ==> FailSoft(alpha, beta, score, Value(board, depth, player, maximizingPlayer))
    ensures alpha == NegInf && beta == PosInf ==> score == Value(board, depth, player, maximizingPlayer)
    ensures alpha == NegInf && beta == PosInf && depth > 0 && !Terminal(board, player) ==>
      exists k :: FirstAt(ChildValues(board, depth, player, maximizingPlayer), k, score)
               && column == Some(OpenColumns(board)[k])
    decreases depth, 2
  {
    if depth == 0 {
      var s := Heuristic.Heuristic(board, player);
      return None, Fin(s);
    }
    if CheckEndState(board, player) != StillPlaying {
      assert Value(board, depth, player, maximizingPlayer) == Fin(TerminalScore(board, player));
      if ConnectedFour(board, player) {
        return None, Fin(100000);
      }
      if ConnectedFour(board, Opponent(player)) {
        return None, Fin(-100000);
      } else {
        return None, Fin(0);
      }
    }
    LayerValue(board, depth, player, maximizingPlayer);
    ghost var vs := ChildValues(board, depth, player, maximizingPlayer);
    ChildValuesAreChildren(board, depth, player, maximizingPlayer);
    if maximizingPlayer {
      column, score := MaximizingLayer(board, depth, alpha, beta, player, vs);
    } else {
      column, score := MinimizingLayer(board, depth, alpha, beta, player, vs);
    }
  }

  /** minimax(...)[1]: the score of a search, without its column. */
  method MinimaxScore(board: Board, depth: nat, alpha: ExtInt, beta: ExtInt, player: Player, maximizingPlayer: bool)
    returns (score: ExtInt)
    ensures score.Fin?
    ensures Lt(alpha, beta) ==> FailSoft(alpha, beta, score, Value(board, depth, player, maximizingPlayer))
    decreases depth, 3
  {
    var _, s := Minimax(board, depth, alpha, beta, player, maximizingPlayer);
    score := s;
  }

  /**
   * One pass of the loop body of minimax: the side to move drops its
   * piece in column action (apply_player_action on a copy), and the child
   * is searched one ply less deep with the other side to move.
   */
  method SearchChild(board: Board, action: Column, depth: nat, alpha: ExtInt, beta: ExtInt, player: Player, maximizing: bool,
                     ghost vs: seq<ExtInt>, ghost i: nat)
    returns (nextScore: ExtInt)
    requires depth > 0 && i < |OpenColumns(board)| == |vs| && action == OpenColumns(board)[i]
    requires forall k {:trigger ChildValue(board, OpenColumns(board)[k], depth, player, maximizing)} :: 0 <= k < |vs| ==>
      vs[k] == ChildValue(board, OpenColumns(board)[k], depth, player, maximizing)
    ensures nextScore.Fin?
    ensures Lt(alpha, beta) ==> FailSoft(alpha, beta, nextScore, vs[i])
    decreases depth, 0
  {
    var child := Drop(board, action, Mover(player, maximizing));
    nextScore := MinimaxScore(child, depth - 1, alpha, beta, player, !maximizing);
    assert vs[i] == ChildValue(board, action, depth, player, maximizing);
  }

  /** The maximizing branch of minimax: the agent tries every open column, raising alpha. */
  method MaximizingLayer(board: Board, depth: nat, alpha: ExtInt, beta: ExtInt, player: Player, ghost vs: seq<ExtInt>)
    returns (column: Option<Column>, score: ExtInt)
    requires depth > 0 && |OpenColumns(board)| > 0 && |vs| == |OpenColumns(board)|
    requires forall k :: 0 <= k < |vs| ==> vs[k].Fin?
    requires forall k {:trigger ChildValue(board, OpenColumns(board)[k], depth, player, true)} :: 0 <= k < |vs| ==>
      vs[k] == ChildValue(board, OpenColumns(board)[k], depth, player, true)
    ensures score.Fin? && column.Some? && column.value in OpenColumns(board)
    ensures Lt(alpha, beta) ==> FailSoft(alpha, beta, score, MaxOf(vs, |vs|))
    ensures alpha == NegInf && beta == PosInf ==>
      exists k :: FirstAt(vs, k, score) && column == Some(OpenColumns(board)[k])
    decreases depth, 1
  {
    var openCols := OpenColumns(board);
    ghost var w := 0;
    var a := alpha;
    score := NegInf;
    column := None;
    var i := 0;
    while i < |openCols|
      invariant 0 <= i <= |openCols|
      invariant MaxLoop(alpha, beta, vs, i, score, w, a)
      invariant Lt(alpha, beta) ==> Lt(a, beta)
      invariant i > 0 ==> column == Some(openCols[w])
    {
      var action := openCols[i];
      var nextScore := SearchChild(board, action, depth, a, beta, player, true, vs, i);
      ghost var previous, pw, a0 := score, w, a;
      if Lt(score, nextScore) {
        score := nextScore;
        column := Some(action);
        w := i;
      }
      a := Max(a, score);
      MaxLoopStep(alpha, beta, vs, i, previous, pw, a0, nextScore, score, w);
      i := i + 1;
      if Le(beta, a) {
        break;
      }
    }
    MaxLoopResult(alpha, beta, vs, i, score, w, a);
  }

  /** The minimizing branch of minimax: the opponent tries every open column, lowering beta. */
  method MinimizingLayer(board: Board, depth: nat, alpha: ExtInt, beta: ExtInt, player: Player, ghost vs: seq<ExtInt>)
    returns (column: Option<Column>, score: ExtInt)
    requires depth > 0 && |OpenColumns(board)| > 0 && |vs| == |OpenColumns(board)|
    requires forall k :: 0 <= k < |vs| ==> vs[k].Fin?
    requires forall k {:trigger ChildValue(board, OpenColumns(board)[k], depth, player, false)} :: 0 <= k < |vs| ==>
      vs[k] == ChildValue(board, OpenColumns(board)[k], depth, player, false)
    ensures score.Fin? && column.Some? && column.value in OpenColumns(board)
    ensures Lt(alpha, beta) ==> FailSoft(alpha, beta, score, MinOf(vs, |vs|))
    ensures alpha == NegInf && beta == PosInf ==>
      exists k :: FirstAt(vs, k, score) && column == Some(OpenColumns(board)[k])
    decreases depth, 1
  {
    var openCols := OpenColumns(board);
    ghost var w := 0;
    var b := beta;
    score := PosInf;
    column := None;
    var i := 0;
    while i < |openCols|
      invariant 0 <= i <= |openCols|
      invariant MinLoop(alpha, beta, vs, i, score, w, b)
      invariant Lt(alpha, beta) ==> Lt(alpha, b)
      invariant i > 0 ==> column == Some(openCols[w])
    {
      var action := openCols[i];
      var nextScore := SearchChild(board, action, depth, alpha, b, player, false, vs, i);
      ghost var previous, pw, b0 := score, w, b;
      if Lt(nextScore, score) {
        score := nextScore;
        column := Some(action);
        w := i;
      }
      b := Min(b, score);
      MinLoopStep(alpha, beta, vs, i, previous, pw, b0, nextScore, score, w);
      i := i + 1;
      if Le(b, alpha) {
        break;
      }
    }
    MinLoopResult(alpha, beta, vs, i, score, w, b);
  }

  // ---------------------------------------------------------------------
  // generate_move_minimax

  /** The search depth of generate_move_minimax. */
  const SearchDepth: nat := 4

  /**
   * c is a best move for the agent looking depth plies ahead: an open
   * column whose child has the largest minimax value, and the lowest such
   * column.
   */
  ghost predicate BestColumn(board: Board, depth: nat, player: Player, c: Column)
    requires depth > 0
  {
    var cols := OpenColumns(board);
    var vs := ChildValues(board, depth, player, true);
    exists k :: 0 <= k < |cols| && c == cols[k]
      && (forall j :: 0 <= j < |vs| ==> Le(vs[j], vs[k]))
      && (forall j :: 0 <= j < k ==> Lt(vs[j], vs[k]))
  }

  /** The column of a full-window search at a maximizing node is a best move. */
  lemma FullWindowColumnIsBest(board: Board, depth: nat, player: Player, c: Column, score: ExtInt)
    requires depth > 0 && !Terminal(board, player)
    requires score == Value(board, depth, player, true)
    requires exists k :: FirstAt(ChildValues(board, depth, player, true), k, score) && c == OpenColumns(board)[k]
    ensures BestColumn(board, depth, player, c)
  {
    ValueIsBestChild(board, depth, player, true);
    var vs := ChildValues(board, depth, player, true);
    var k :| FirstAt(vs, k, score) && c == OpenColumns(board)[k];
    assert forall j :: 0 <= j < k ==> Lt(vs[j], vs[k]);
  }

  /**
   * generate_move_minimax: the column of a full-window search of depth 4
   * for the maximizing agent; the saved state is handed back unchanged.
   * Away from terminal positions the column is a best move.
   */
  method GenerateMoveMinimax<S>(board: Board, player: Player, savedState: Option<S>)
    returns (action: Option<Column>, saved: Option<S>)
    ensures saved == savedState
    ensures Terminal(board, player) ==> action == None
    ensures !Terminal(board, player) ==> action.Some? && BestColumn(board, SearchDepth, player, action.value)
  {
    var score;
    action, score := Minimax(board, SearchDepth, NegInf, PosInf, player, true);
    saved := savedState;
    if !Terminal(board, player) {
      FullWindowColumnIsBest(board, SearchDepth, player, action.value, score);
    }
  }
}
