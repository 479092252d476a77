/**
 * The Monte Carlo tree search agent of agents/agent_mcts/agent_mcts.py.
 *
 * The source links Node objects by references (parent, children).  Here
 * the nodes of one search tree live in an arena: the class Tree holds them
 * in a sequence, node 0 is the root, and parent and children are indices
 * into that sequence.  Every node is added after its parent, so a parent's
 * index is always below its children's.  The random draws of random.choice
 * come from an injected oracle `rng`, whose t-th draw is `rng(t)`, and the
 * UCB1 score of a visited node from an injected function `ucb1`.
 */
module Mcts {
  import opened Wrappers
  import opened Board
  import opened Lines

  // ---------------------------------------------------------------------
  // result

  /**
   * result: the value of a finished playout for player: -1 when the
   * opponent has four in a row (checked first), 1 when player has, 0.2 on
   * a draw and 0 while the game goes on.
   */
  function Result(b: Board, player: Player): (r: real)
    ensures r == -1.0 <==> ConnectedFour(b, Opponent(player))
    ensures r == 1.0 <==> !ConnectedFour(b, Opponent(player)) && ConnectedFour(b, player)
    ensures r == 0.2 <==> !ConnectedFour(b, Opponent(player)) && !ConnectedFour(b, player) && OpenColumns(b) == []
    ensures r == 0.0 <==> !ConnectedFour(b, Opponent(player)) && !ConnectedFour(b, player) && OpenColumns(b) != []
  {
    if CheckEndState(b, Opponent(player)) == IsWin then -1.0
    else if CheckEndState(b, player) == IsWin then 1.0
    else if CheckEndState(b, player) == IsDraw then 0.2
    else 0.0
  }

  // ---------------------------------------------------------------------
  // Lists of moves (Python's list.remove)

  /** The position of the first x in s. */
  function IndexOf(s: seq<Column>, x: Column): (k: nat)
    requires x in s
    ensures k < |s| && s[k] == x && x !in s[..k]
  {
    if s[0] == x then 0
    else
      var k := IndexOf(s[1..], x);
      assert s[..k + 1] == [s[0]] + s[1..][..k];
      k + 1
  }

  /** list.remove: s without its first x, the other moves in their order. */
  function Remove(s: seq<Column>, x: Column): (r: seq<Column>)
    requires x in s
    ensures |r| == |s| - 1
    ensures multiset(r) == multiset(s) - multiset{x}
  {
    var k := IndexOf(s, x);
    assert s == s[..k] + [x] + s[k + 1..];
    s[..k] + s[k + 1..]
  }

  // ---------------------------------------------------------------------
  // Node

  /**
   * A node of the search tree: the board after column_move was played by
   * player, the parent's index (None at the root), the children's indices,
   * the moves not yet expanded, and the statistics value and num_visits.
   */
  datatype Node = Node(
    board: Board,
    parent: Option<nat>,
    columnMove: int,
    player: Player,
    children: seq<nat>,
    unexpandedMoves: seq<Column>,
    value: real,
    numVisits: nat)
  {
    /** is_root, fixed at creation: the node has no parent. */
    predicate IsRoot()
    {
      parent.None?
    }
  }

  /** Node.__init__: no children, value 0, no visits, every open column still to expand. */
  function NewNode(board: Board, parent: Option<nat>, col: int, player: Player): (n: Node)
    ensures n.board == board && n.parent == parent && n.columnMove == col && n.player == player
    ensures n.IsRoot() <==> parent.None?
    ensures n.children == [] && n.value == 0.0 && n.numVisits == 0
    ensures n.unexpandedMoves == OpenColumns(board)
  {
    Node(board, parent, col, player, [], OpenColumns(board), 0.0, 0)
  }

  /** A strictly ascending list holds each of its elements once. */
  lemma {:induction false} AscendingOnce(s: seq<int>, x: int)
    requires forall i, j :: 0 <= i < j < |s| ==> s[i] < s[j]
    ensures multiset(s)[x] == if x in s then 1 else 0
  {
    if |s| > 0 {
      var s' := s[..|s| - 1];
      assert s == s' + [s[|s| - 1]];
      AscendingOnce(s', x);
      assert forall k :: 0 <= k < |s'| ==> s'[k] < s[|s| - 1];
    }
  }

  /**
   * A fresh node's unexpanded moves are its board's open columns, each
   * once: a column occurs exactly once when its top cell is empty, and
   * never otherwise.
   */
  lemma NewNodeMovesOnce(board: Board, parent: Option<nat>, col: int, player: Player, d: int)
    requires 0 <= d < Columns
    ensures multiset(NewNode(board, parent, col, player).unexpandedMoves)[d]
         == if board[Rows - 1][d] == NoPlayer then 1 else 0
  {
    OpenColumnsMembers(board);
    OpenColumnsAscending(board);
    AscendingOnce(OpenColumns(board), d);
  }

  /** A fresh node's moves are partitioned on their own: no children, and all its open columns unexpanded. */
  lemma NewNodePartitioned(ns: seq<Node>, i: nat, board: Board, parent: Option<nat>, col: int, player: Player)
    requires Linked(ns) && i < |ns| && ns[i] == NewNode(board, parent, col, player)
    ensures ChildMoves(ns, i) == []
    ensures Partitioned(ns, i)
  {
  }

  /** The moves of the children cs[..n], in order. */
  ghost function MovesOf(ns: seq<Node>, cs: seq<nat>, n: nat): (ms: seq<int>)
    requires n <= |cs|
    requires forall k :: 0 <= k < |cs| ==> cs[k] < |ns|
    ensures |ms| == n
  {
    if n == 0 then [] else MovesOf(ns, cs, n - 1) + [ns[cs[n - 1]].columnMove]
  }

  /** The moves of all the children of node i. */
  ghost function ChildMoves(ns: seq<Node>, i: nat): seq<int>
    requires i < |ns|
    requires forall k :: 0 <= k < |ns[i].children| ==> ns[i].children[k] < |ns|
  {
    MovesOf(ns, ns[i].children, |ns[i].children|)
  }

  /**
   * The links of a tree: node 0 and no other is the root, every other
   * node's parent comes before it and its move is a column, and every
   * child of i comes after i and has i as its parent.
   */
  ghost predicate Linked(ns: seq<Node>)
  {
    && |ns| > 0
    && ns[0].parent.None?
    && (forall i :: 0 < i < |ns| ==>
          ns[i].parent.Some? && ns[i].parent.value < i && 0 <= ns[i].columnMove < Columns)
    && (forall i, k :: 0 <= i < |ns| && 0 <= k < |ns[i].children| ==>
          i < ns[i].children[k] < |ns| && ns[ns[i].children[k]].parent == Some(i))
  }

  /**
   * Node i's unexpanded moves and its children's moves are disjoint and
   * together are exactly the open columns of its board.
   */
  ghost predicate Partitioned(ns: seq<Node>, i: nat)
    requires Linked(ns) && i < |ns|
  {
    multiset(ns[i].unexpandedMoves) + multiset(ChildMoves(ns, i)) == multiset(OpenColumns(ns[i].board))
  }

  /** The invariant of a search tree. */
  ghost predicate WellFormed(ns: seq<Node>)
  {
    Linked(ns) && forall i :: 0 <= i < |ns| ==> Partitioned(ns, i)
  }

  /** Every node but the root has been visited: the tree between two iterations of the search. */
  ghost predicate Visited(ns: seq<Node>)
  {
    forall i :: 0 < i < |ns| ==> ns[i].numVisits > 0
  }

  /** The moves of children depend on nothing but those children's moves. */
  lemma {:induction false} MovesOfFrame(ns: seq<Node>, ns': seq<Node>, cs: seq<nat>, n: nat)
    requires n <= |cs| && |ns| <= |ns'|
    requires forall k :: 0 <= k < |cs| ==> cs[k] < |ns|
    requires forall j :: 0 <= j < |ns| ==> ns'[j].columnMove == ns[j].columnMove
    ensures MovesOf(ns', cs, n) == MovesOf(ns, cs, n)
  {
    if n > 0 {
      MovesOfFrame(ns, ns', cs, n - 1);
    }
  }

  /** The moves of the first n children do not depend on the children after them. */
  lemma {:induction false} MovesOfPrefix(ns: seq<Node>, cs: seq<nat>, cs': seq<nat>, n: nat)
    requires n <= |cs| && n <= |cs'| && cs[..n] == cs'[..n]
    requires forall k :: 0 <= k < |cs| ==> cs[k] < |ns|
    requires forall k :: 0 <= k < |cs'| ==> cs'[k] < |ns|
    ensures MovesOf(ns, cs, n) == MovesOf(ns, cs', n)
  {
    if n > 0 {
      assert cs[..n - 1] == cs[..n][..n - 1] && cs'[..n - 1] == cs'[..n][..n - 1];
      assert cs[n - 1] == cs[..n][n - 1] && cs'[n - 1] == cs'[..n][n - 1];
      MovesOfPrefix(ns, cs, cs', n - 1);
    }
  }

  // ---------------------------------------------------------------------
  // expansion

  /** The nodes after node i expands move into a child with the given board and player. */
  function Expanded(ns: seq<Node>, i: nat, move: Column, board: Board, player: Player): (ns': seq<Node>)
    requires i < |ns| && move in ns[i].unexpandedMoves
    ensures |ns'| == |ns| + 1
  {
    var n := ns[i];
    ns[i := n.(unexpandedMoves := Remove(n.unexpandedMoves, move), children := n.children + [|ns|])]
      + [NewNode(board, Some(i), move, player)]
  }

  /** Expansion keeps the links of a tree: the new node is a child of i and comes last. */
  lemma ExpandedLinked(ns: seq<Node>, i: nat, move: Column, board: Board, player: Player)
    requires Linked(ns) && i < |ns| && move in ns[i].unexpandedMoves
    ensures Linked(Expanded(ns, i, move, board, player))
  {
    var ns' := Expanded(ns, i, move, board, player);
    forall j, k | 0 <= j < |ns'| && 0 <= k < |ns'[j].children|
      ensures j < ns'[j].children[k] < |ns'| && ns'[ns'[j].children[k]].parent == Some(j)
    {
      if j == i && k == |ns[i].children| {
        assert ns'[j].children[k] == |ns|;
      } else {
        assert ns'[j].children[k] == ns[j].children[k];
      }
    }
  }

  /** The children's moves of the expanded node gain the expanded move. */
  lemma ExpandedChildMoves(ns: seq<Node>, i: nat, move: Column, board: Board, player: Player)
    requires Linked(ns) && i < |ns| && move in ns[i].unexpandedMoves
    ensures Linked(Expanded(ns, i, move, board, player))
    ensures ChildMoves(Expanded(ns, i, move, board, player), i) == ChildMoves(ns, i) + [move]
  {
    ExpandedLinked(ns, i, move, board, player);
    var ns' := Expanded(ns, i, move, board, player);
    var cs := ns[i].children;
    MovesOfPrefix(ns', ns'[i].children, cs, |cs|);
    MovesOfFrame(ns, ns', cs, |cs|);
  }

  /** The new child's moves are partitioned: no children, and every open column is still to expand. */
  lemma ExpandedPartitionedNew(ns: seq<Node>, i: nat, move: Column, board: Board, player: Player)
    requires Linked(ns) && i < |ns| && move in ns[i].unexpandedMoves
    ensures Linked(Expanded(ns, i, move, board, player))
    ensures Partitioned(Expanded(ns, i, move, board, player), |ns|)
  {
    ExpandedLinked(ns, i, move, board, player);
    NewNodePartitioned(Expanded(ns, i, move, board, player), |ns|, board, Some(i), move, player);
  }

  /** The expanded node's moves stay partitioned: move leaves the unexpanded moves and joins the children's moves. */
  lemma ExpandedPartitionedSelf(ns: seq<Node>, i: nat, move: Column, board: Board, player: Player)
    requires Linked(ns) && i < |ns| && move in ns[i].unexpandedMoves && Partitioned(ns, i)
    ensures Linked(Expanded(ns, i, move, board, player))
    ensures Partitioned(Expanded(ns, i, move, board, player), i)
  {
    var ns' := Expanded(ns, i, move, board, player);
    ExpandedChildMoves(ns, i, move, board, player);
    var u := ns[i].unexpandedMoves;
    assert multiset(ns'[i].unexpandedMoves) == multiset(u) - multiset{move};
    assert multiset(u) == multiset(u) - multiset{move} + multiset{move};
  }

  /** Any other node keeps its moves, and so stays partitioned. */
  lemma ExpandedPartitionedOther(ns: seq<Node>, i: nat, move: Column, board: Board, player: Player, j: nat)
    requires Linked(ns) && i < |ns| && move in ns[i].unexpandedMoves && j < |ns| && j != i && Partitioned(ns, j)
    ensures Linked(Expanded(ns, i, move, board, player))
    ensures Partitioned(Expanded(ns, i, move, board, player), j)
  {
    ExpandedLinked(ns, i, move, board, player);
    var ns' := Expanded(ns, i, move, board, player);
    assert ns'[j] == ns[j];
    MovesOfFrame(ns, ns', ns[j].children, |ns[j].children|);
  }

  /** After expansion, node j's moves are still partitioned. */
  lemma ExpandedPartitionedAt(ns: seq<Node>, i: nat, move: Column, board: Board, player: Player, j: nat)
    requires WellFormed(ns) && i < |ns| && move in ns[i].unexpandedMoves && j <= |ns|
    ensures Linked(Expanded(ns, i, move, board, player))
    ensures Partitioned(Expanded(ns, i, move, board, player), j)
  {
    if j == |ns| {
      ExpandedPartitionedNew(ns, i, move, board, player);
    } else if j == i {
      ExpandedPartitionedSelf(ns, i, move, board, player);
    } else {
      ExpandedPartitionedOther(ns, i, move, board, player, j);
    }
  }

  /** Expansion moves one move of node i from its unexpanded moves to its children, keeping the tree well formed. */
  lemma ExpandedWellFormed(ns: seq<Node>, i: nat, move: Column, board: Board, player: Player)
    requires WellFormed(ns) && i < |ns| && move in ns[i].unexpandedMoves
    ensures WellFormed(Expanded(ns, i, move, board, player))
  {
    var ns' := Expanded(ns, i, move, board, player);
    ExpandedLinked(ns, i, move, board, player);
    forall j | 0 <= j < |ns'|
      ensures Partitioned(ns', j)
    {
      ExpandedPartitionedAt(ns, i, move, board, player, j);
    }
  }

  /** The statistics of a node after one more visit scoring r. */
  function Bumped(n: Node, r: real): Node
  {
    n.(value := n.value + r, numVisits := n.numVisits + 1)
  }

  /** Two node lists with the same length, boards, links and moves. */
  ghost predicate SameShape(ns: seq<Node>, ns': seq<Node>)
  {
    |ns| == |ns'| &&
    forall j :: 0 <= j < |ns| ==>
      ns'[j].board == ns[j].board && ns'[j].parent == ns[j].parent && ns'[j].columnMove == ns[j].columnMove
      && ns'[j].children == ns[j].children && ns'[j].unexpandedMoves == ns[j].unexpandedMoves
  }

  /** Changing statistics only keeps a tree well formed. */
  lemma SameShapeWellFormed(ns: seq<Node>, ns': seq<Node>)
    requires WellFormed(ns) && SameShape(ns, ns')
    ensures WellFormed(ns')
  {
    assert Linked(ns');
    forall j | 0 <= j < |ns'|
      ensures Partitioned(ns', j)
    {
      assert Partitioned(ns, j);
      MovesOfFrame(ns, ns', ns[j].children, |ns[j].children|);
    }
  }

  // ---------------------------------------------------------------------
  // backpropagation

  /** The nodes backpropagation updates from node i: i and its ancestors, up to but without the root. */
  ghost function Path(ns: seq<Node>, i: nat): (p: set<nat>)
    requires Linked(ns) && i < |ns|
    ensures forall j :: j in p ==> 0 < j <= i
    decreases i
  {
    if ns[i].parent.None? then {} else {i} + Path(ns, ns[i].parent.value)
  }

  /** Path follows the parent links alone. */
  lemma {:induction false} PathFrame(ns: seq<Node>, ns': seq<Node>, i: nat)
    requires Linked(ns) && Linked(ns') && SameShape(ns, ns') && i < |ns|
    ensures Path(ns', i) == Path(ns, i)
    decreases i
  {
    if ns[i].parent.Some? {
      PathFrame(ns, ns', ns[i].parent.value);
    }
  }

  /** The k-th of the moves of cs[..n] is the move of cs[k]. */
  lemma {:induction false} MovesOfAt(ns: seq<Node>, cs: seq<nat>, n: nat, k: nat)
    requires k < n <= |cs|
    requires forall j :: 0 <= j < |cs| ==> cs[j] < |ns|
    ensures MovesOf(ns, cs, n)[k] == ns[cs[k]].columnMove
    decreases n
  {
    if k < n - 1 {
      MovesOfAt(ns, cs, n - 1, k);
    }
  }

  /** Every child of a node of a search tree was made by one of that node's open columns. */
  lemma ChildMoveIsOpen(ns: seq<Node>, i: nat, k: nat)
    requires WellFormed(ns) && i < |ns| && k < |ns[i].children|
    ensures ns[ns[i].children[k]].columnMove in OpenColumns(ns[i].board)
  {
    var m := ns[ns[i].children[k]].columnMove;
    MovesOfAt(ns, ns[i].children, |ns[i].children|, k);
    assert ChildMoves(ns, i)[k] == m;
    assert m in multiset(ChildMoves(ns, i));
    assert Partitioned(ns, i);
    assert m in multiset(OpenColumns(ns[i].board));
  }

  /** A node with neither children nor unexpanded moves has a full board. */
  lemma {:induction false} LeafWithoutMoves(ns: seq<Node>, i: nat)
    requires WellFormed(ns) && i < |ns| && ns[i].children == [] && ns[i].unexpandedMoves == []
    ensures OpenColumns(ns[i].board) == []
  {
    assert Partitioned(ns, i);
    assert ChildMoves(ns, i) == [];
    assert |multiset(OpenColumns(ns[i].board))| == 0;
  }

  /** value / num_visits, the mean result of a node visited num_visits times. */
  function MeanValue(value: real, visits: nat): real
    requires visits > 0
  {
    value / visits as real
  }

  /** The children cs are nodes of ns made by a column. */
  ghost predicate ChildrenIn(ns: seq<Node>, cs: seq<nat>)
  {
    forall j :: 0 <= j < |cs| ==> cs[j] < |ns| && 0 <= ns[cs[j]].columnMove < Columns
  }

  /** The children of a node of a linked tree are nodes made by a column. */
  lemma ChildrenOfLinked(ns: seq<Node>, i: nat)
    requires Linked(ns) && i < |ns|
    ensures ChildrenIn(ns, ns[i].children)
  {
  }

  // ---------------------------------------------------------------------
  // best_child, on what it reads of each child

  /**
   * What best_child reads of one child: whether the child's player has
   * four in a row, whether the opponent would have four in a row by playing
   * the child's column on the root board, and the child's statistics.
   */
  datatype Verdict = Verdict(wins: bool, blocks: bool, value: real, visits: nat)

  /** The mean result of a visited child. */
  function Ratio(v: Verdict): real
    requires v.visits > 0
  {
    MeanValue(v.value, v.visits)
  }

  /** No child among vs[..k] wins. */
  ghost predicate NoWinBefore(vs: seq<Verdict>, k: nat)
    requires k <= |vs|
  {
    forall j :: 0 <= j < k ==> !vs[j].wins
  }

  /**
   * best_child divides by num_visits only for the children it reaches (no
   * earlier child wins) that neither win nor block: those have been visited.
   */
  ghost predicate ReadVisited(vs: seq<Verdict>)
  {
    forall k :: 0 <= k < |vs| && NoWinBefore(vs, k) && !vs[k].wins && !vs[k].blocks ==> vs[k].visits > 0
  }

  /**
   * Child k is the one best_child returns: the first winning child;
   * failing that, the last blocking child; failing that, the first child of
   * highest ratio.
   */
  ghost predicate ChosenIn(vs: seq<Verdict>, k: nat)
    requires k < |vs|
  {
    || (vs[k].wins && NoWinBefore(vs, k))
    || (NoWinBefore(vs, |vs|) && vs[k].blocks && forall j :: k < j < |vs| ==> !vs[j].blocks)
    || ((forall j :: 0 <= j < |vs| ==> !vs[j].wins && !vs[j].blocks && vs[j].visits > 0)
        && (forall j :: 0 <= j < |vs| ==> Ratio(vs[j]) <= Ratio(vs[k]))
        && (forall j :: 0 <= j < k ==> Ratio(vs[j]) < Ratio(vs[k])))
  }

  /** At most one child is the one best_child returns. */
  lemma ChosenUnique(vs: seq<Verdict>, k: nat, m: nat)
    requires k < |vs| && m < |vs| && ChosenIn(vs, k) && ChosenIn(vs, m)
    ensures k == m
  {
  }

  /**
   * Where best_child's scan stands: the position of a winning child, of
   * the last blocking child, and of the best child by ratio so far with its
   * ratio.
   */
  datatype ScanState = ScanState(win: Option<nat>, urgent: Option<nat>, best: Option<nat>, bestRatio: real)

  /**
   * The scan of best_child over the children vs[..n]: it stops at the
   * first winning child, and otherwise holds the last blocking child and
   * the first child of highest ratio so far.
   */
  ghost function Scan(vs: seq<Verdict>, n: nat): (s: ScanState)
    requires n <= |vs| && ReadVisited(vs)
    ensures s.win.Some? ==> s.win.value < n
    ensures s.win.None? ==> NoWinBefore(vs, n)
    ensures s.urgent.Some? ==> s.urgent.value < n
    ensures s.best.Some? ==> s.best.value < n
  {
    if n == 0 then ScanState(None, None, None, 0.0)
    else
      var s := Scan(vs, n - 1);
      var v := vs[n - 1];
      if s.win.Some? then s
      else if v.wins then s.(win := Some(n - 1))
      else if v.blocks then s.(urgent := Some(n - 1))
      else if s.best.None? || Ratio(v) > s.bestRatio then s.(best := Some(n - 1), bestRatio := Ratio(v))
      else s
  }

  /** Without a winning child, the scan's urgent child is the last blocking child. */
  lemma {:induction false} ScanUrgent(vs: seq<Verdict>, n: nat)
    requires n <= |vs| && ReadVisited(vs)
    ensures var s := Scan(vs, n);
      s.win.None? ==>
        && (s.urgent.None? ==> forall j :: 0 <= j < n ==> !vs[j].blocks)
        && (s.urgent.Some? ==> vs[s.urgent.value].blocks && forall j :: s.urgent.value < j < n ==> !vs[j].blocks)
  {
    if n > 0 {
      ScanUrgent(vs, n - 1);
    }
  }

  /** Without a winning child, the scan's best child is the first of highest ratio among those that do not block. */
  lemma {:induction false} ScanBest(vs: seq<Verdict>, n: nat)
    requires n <= |vs| && ReadVisited(vs)
    ensures Scan(vs, n).win.None? ==> forall j :: 0 <= j < n && !vs[j].blocks ==> vs[j].visits > 0
    ensures var s := Scan(vs, n);
      s.win.None? ==>
        && (s.best.None? ==> forall j :: 0 <= j < n ==> vs[j].blocks)
        && (s.best.Some? ==>
              && !vs[s.best.value].blocks
              && s.bestRatio == Ratio(vs[s.best.value])
              && (forall j :: 0 <= j < n && !vs[j].blocks ==> Ratio(vs[j]) <= s.bestRatio)
              && (forall j :: 0 <= j < s.best.value && !vs[j].blocks ==> Ratio(vs[j]) < s.bestRatio))
  {
    if n > 0 {
      ScanBest(vs, n - 1);
    }
  }

  /** The scan over all the children ends at the child ChosenIn describes, which exists when there are children. */
  lemma ScanChooses(vs: seq<Verdict>)
    requires ReadVisited(vs)
    ensures var s := Scan(vs, |vs|);
      && (s.win.Some? ==> ChosenIn(vs, s.win.value))
      && (s.win.None? && s.urgent.Some? ==> ChosenIn(vs, s.urgent.value))
      && (s.win.None? && s.urgent.None? && s.best.Some? ==> ChosenIn(vs, s.best.value))
      && (s.win.None? && s.urgent.None? && s.best.None? ==> vs == [])
  {
    ScanWin(vs, |vs|);
    ScanUrgent(vs, |vs|);
    ScanBest(vs, |vs|);
    if vs != [] {
      assert vs[0].blocks || !vs[0].blocks;
    }
  }

  /** One step of the scan past a child that does not win: a block becomes the urgent child, any other visited child may become the best. */
  lemma ScanAdvance(vs: seq<Verdict>, k: nat)
    requires k < |vs| && ReadVisited(vs) && Scan(vs, k).win.None? && !vs[k].wins
    ensures var s := Scan(vs, k); var s' := Scan(vs, k + 1);
      && s'.win.None?
      && (vs[k].blocks ==> s' == s.(urgent := Some(k)))
      && (!vs[k].blocks ==> vs[k].visits > 0)
      && (!vs[k].blocks && (s.best.None? || Ratio(vs[k]) > s.bestRatio) ==> s' == s.(best := Some(k), bestRatio := Ratio(vs[k])))
      && (!vs[k].blocks && s.best.Some? && Ratio(vs[k]) <= s.bestRatio ==> s' == s)
  {
  }

  /** A winning child reached by the scan is the child best_child returns. */
  lemma ScanWinChosen(vs: seq<Verdict>, k: nat)
    requires k < |vs| && ReadVisited(vs) && Scan(vs, k).win.None? && vs[k].wins
    ensures ChosenIn(vs, k)
  {
    ScanWin(vs, k + 1);
    ScanChooses(vs);
  }

  /** The scan's winning child is the first child that wins. */
  lemma {:induction false} ScanWin(vs: seq<Verdict>, n: nat)
    requires n <= |vs| && ReadVisited(vs)
    ensures var s := Scan(vs, n);
      s.win.Some? ==> vs[s.win.value].wins && NoWinBefore(vs, s.win.value)
  {
    if n > 0 {
      ScanWin(vs, n - 1);
    }
  }

  // ---------------------------------------------------------------------
  // one round of monte_carlo_tree_search

  /**
   * One round of the search from the root: selection stops at node d,
   * which is the root when the root has no children, and expands move
   * there unless d has no unexpanded move; backpropagation then adds score
   * along the path from the leaf.  The round keeps every node below the
   * root visited, leaves the root's board and visits as they were, and
   * leaves the root with a child unless its board is full.
   */
  lemma SearchRound(ns: seq<Node>, d: nat, move: Column, board: Board, p: Player,
                    mid: seq<Node>, leaf: nat, score: real, ns': seq<Node>)
    requires WellFormed(ns) && Visited(ns) && d < |ns| && (ns[0].children == [] ==> d == 0)
    requires if ns[d].unexpandedMoves == [] then mid == ns && leaf == d
      else move in ns[d].unexpandedMoves && mid == Expanded(ns, d, move, board, p) && leaf == |ns|
    requires Linked(mid) && leaf < |mid| && |ns'| == |mid|
    requires forall j :: 0 <= j < |ns'| ==>
      ns'[j] == if j in Path(mid, leaf) then Bumped(mid[j], score) else mid[j]
    ensures Visited(ns')
    ensures ns'[0].board == ns[0].board && ns'[0].numVisits == ns[0].numVisits
    ensures ns'[0].children != [] || OpenColumns(ns[0].board) == []
  {
    assert ns'[0] == mid[0];
    if ns[d].unexpandedMoves == [] {
      if ns[0].children == [] {
        LeafWithoutMoves(ns, 0);
      }
    } else {
      assert leaf in Path(mid, leaf);
      assert forall j :: 0 <= j < |ns| ==> mid[j].numVisits == ns[j].numVisits;
    }
  }

  // ---------------------------------------------------------------------
  // The tree

  /** The nodes of one search, with node 0 as the root. */
  class Tree {
    var nodes: seq<Node>

    ghost predicate Valid()
      reads this
    {
      WellFormed(nodes)
    }

    /** A tree of one root node, Node(board_copy, parent=None, col=-1, player). */
    constructor (board: Board, player: Player)
      ensures nodes == [NewNode(board, None, -1, player)]
      ensures Valid()
    {
      nodes := [NewNode(board, None, -1, player)];
    }

    /**
     * Node.expansion: node i gets a new last child for move, with the given
     * board and player, and move leaves i's unexpanded moves.
     */
    method Expansion(i: nat, move: Column, state: Board, player: Player) returns (child: nat)
      requires Valid() && i < |nodes| && move in nodes[i].unexpandedMoves
      modifies this
      ensures nodes == Expanded(old(nodes), i, move, state, player)
      ensures child == |old(nodes)| && nodes[child].parent == Some(i) && nodes[child].columnMove == move
      ensures Valid()
    {
      ExpandedWellFormed(nodes, i, move, state, player);
      child := |nodes|;
      var n := nodes[i];
      nodes := nodes[i := n.(unexpandedMoves := Remove(n.unexpandedMoves, move), children := n.children + [child])]
        + [NewNode(state, Some(i), move, player)];
    }
  }

  // ---------------------------------------------------------------------
  // ucb_value and highest_ucb

  /** A UCB score: +inf for a node never visited, else a real. */
  datatype Ucb = Infinite | Score(s: real)

  predicate UcbLe(a: Ucb, b: Ucb)
  {
    b.Infinite? || (a.Score? && a.s <= b.s)
  }

  predicate UcbLt(a: Ucb, b: Ucb)
  {
    !UcbLe(b, a)
  }

  /** The last mover after n more moves alternating from mover. */
  function LastMover(mover: Player, n: nat): Player
  {
    if n % 2 == 0 then mover else Opponent(mover)
  }

  /** Moving n more times after the opponent is moving n + 1 more times after mover. */
  lemma LastMoverStep(mover: Player, n: nat)
    ensures LastMover(Opponent(mover), n) == LastMover(mover, n + 1)
  {
    assert Opponent(Opponent(mover)) == mover;
  }

  /**
   * The search of one agent: its player, the random draws of
   * random.choice (the t-th draw is rng(t)) and the UCB1 score of a visited
   * node as a function of its value, its visits and its parent's visits.
   */
  class Mcts {
    const player: Player
    const rng: nat -> nat
    const ucb1: (real, nat, nat) -> real

    constructor (player: Player, rng: nat -> nat, ucb1: (real, nat, nat) -> real)
      ensures this.player == player && this.rng == rng && this.ucb1 == ucb1
    {
      this.player := player;
      this.rng := rng;
      this.ucb1 := ucb1;
    }

    /** Node.ucb_value of the non-root node j: +inf while j has not been visited. */
    function UcbValue(ns: seq<Node>, j: nat): (u: Ucb)
      requires j < |ns| && ns[j].parent.Some? && ns[j].parent.value < |ns|
      ensures u.Infinite? <==> ns[j].numVisits == 0
    {
      if ns[j].numVisits == 0 then Infinite
      else Score(ucb1(ns[j].value, ns[j].numVisits, ns[ns[j].parent.value].numVisits))
    }

    /** max(children, key=ucb_value) over the first n children of i: the first child of largest score. */
    function FirstMaxUcb(ns: seq<Node>, i: nat, n: nat): (k: nat)
      requires Linked(ns) && i < |ns| && 0 < n <= |ns[i].children|
      ensures k < n
      ensures forall j :: 0 <= j < n ==> UcbLe(UcbValue(ns, ns[i].children[j]), UcbValue(ns, ns[i].children[k]))
      ensures forall j :: 0 <= j < k ==> UcbLt(UcbValue(ns, ns[i].children[j]), UcbValue(ns, ns[i].children[k]))
    {
      if n == 1 then 0
      else
        var k := FirstMaxUcb(ns, i, n - 1);
        var cs := ns[i].children;
        if UcbLt(UcbValue(ns, cs[k]), UcbValue(ns, cs[n - 1])) then n - 1 else k
    }

    /** highest_ucb: None for a node without children, else its first child of largest UCB score. */
    function HighestUcb(ns: seq<Node>, i: nat): (r: Option<nat>)
      requires Linked(ns) && i < |ns|
      ensures r.None? <==> ns[i].children == []
      ensures r.Some? ==> i < r.value < |ns|
      ensures r.Some? ==>
        exists k :: (0 <= k < |ns[i].children| && r.value == ns[i].children[k]
          && (forall j :: 0 <= j < |ns[i].children| ==> UcbLe(UcbValue(ns, ns[i].children[j]), UcbValue(ns, r.value)))
          && (forall j :: 0 <= j < k ==> UcbLt(UcbValue(ns, ns[i].children[j]), UcbValue(ns, r.value))))
    {
      var cs := ns[i].children;
      if |cs| == 0 then None else Some(cs[FirstMaxUcb(ns, i, |cs|)])
    }

    /** A child that was never visited has score +inf, so highest_ucb picks the first such child. */
    lemma HighestUcbPrefersUnvisited(ns: seq<Node>, i: nat, k: nat)
      requires Linked(ns) && i < |ns| && k < |ns[i].children| && ns[ns[i].children[k]].numVisits == 0
      ensures HighestUcb(ns, i).Some?
      ensures exists m :: (0 <= m < |ns[i].children| && HighestUcb(ns, i).value == ns[i].children[m]
        && ns[ns[i].children[m]].numVisits == 0
        && forall j :: 0 <= j < m ==> ns[ns[i].children[j]].numVisits > 0)
    {
      var cs := ns[i].children;
      var r := HighestUcb(ns, i).value;
      assert UcbLe(UcbValue(ns, cs[k]), UcbValue(ns, r));
      var m :| 0 <= m < |cs| && r == cs[m] && forall j :: 0 <= j < m ==> UcbLt(UcbValue(ns, cs[j]), UcbValue(ns, r));
      assert ns[cs[m]].numVisits == 0;
    }

    // -------------------------------------------------------------------
    // selection

    /** The node selection's descent stops at: follow highest_ucb while a node has children and nothing to expand. */
    function Descend(ns: seq<Node>, i: nat): (d: nat)
      requires Linked(ns) && i < |ns|
      ensures d < |ns|
      ensures ns[d].children == [] || ns[d].unexpandedMoves != []
      decreases |ns| - i
    {
      if ns[i].children != [] && ns[i].unexpandedMoves == [] then Descend(ns, HighestUcb(ns, i).value)
      else i
    }

    /** select_random_child: the move at the drawn index. */
    function SelectRandomChild(children: seq<Column>, draw: nat): (c: Column)
      requires |children| > 0
      ensures c in children
    {
      children[draw % |children|]
    }

    /**
     * selection: descend from node to Descend(node); if that node still has
     * unexpanded moves, draw one and expand it with the root board plus one
     * piece of the agent, owned by player.
     */
    method Selection(tree: Tree, node: nat, rootBoard: Board, player: Player, t: nat) returns (leaf: nat, t': nat)
      requires tree.Valid() && node < |tree.nodes|
      modifies tree
      ensures tree.Valid()
      ensures var ns := old(tree.nodes); var d := Descend(ns, node);
        if ns[d].unexpandedMoves == [] then
          tree.nodes == ns && leaf == d && t' == t
        else
          var move := SelectRandomChild(ns[d].unexpandedMoves, rng(t));
          tree.nodes == Expanded(ns, d, move, Drop(rootBoard, move, this.player), player)
          && leaf == |ns| && t' == t + 1
    {
      var n := node;
      while tree.nodes[n].children != [] && tree.nodes[n].unexpandedMoves == []
        invariant tree.nodes == old(tree.nodes)
        invariant n < |tree.nodes| && Descend(tree.nodes, n) == Descend(tree.nodes, node)
        decreases |tree.nodes| - n
      {
        n := HighestUcb(tree.nodes, n).value;
      }
      leaf, t' := n, t;
      if tree.nodes[n].unexpandedMoves != [] {
        var move := SelectRandomChild(tree.nodes[n].unexpandedMoves, rng(t));
        t' := t + 1;
        var childBoard := Drop(rootBoard, move, this.player);
        leaf := tree.Expansion(n, move, childBoard, player);
      }
    }

    // -------------------------------------------------------------------
    // simulation

    /**
     * The random playout from b, mover having moved last, drawing from the
     * t-th draw on: the final board and the number of moves played.
     */
    function Playout(b: Board, mover: Player, t: nat): (out: (Board, nat))
      decreases EmptyCells(b)
    {
      if IsFull(b) || |OpenColumns(b)| == 0 then (b, 0)
      else
        var avail := OpenColumns(b);
        var p := Opponent(mover);
        var col := avail[rng(t) % |avail|];
        DropFillsOneCell(b, col, p);
        var b' := Drop(b, col, p);
        if ConnectedFour(b', p) then (b', 1)
        else
          var rest := Playout(b', p, t + 1);
          (rest.0, rest.1 + 1)
    }

    /** A playout plays at most one move per empty cell. */
    lemma {:induction false} PlayoutLength(b: Board, mover: Player, t: nat)
      ensures Playout(b, mover, t).1 <= EmptyCells(b)
      decreases EmptyCells(b)
    {
      if !IsFull(b) && |OpenColumns(b)| > 0 {
        var avail := OpenColumns(b);
        var p := Opponent(mover);
        var col := avail[rng(t) % |avail|];
        DropFillsOneCell(b, col, p);
        var b' := Drop(b, col, p);
        if !ConnectedFour(b', p) {
          PlayoutLength(b', p, t + 1);
        }
      }
    }

    /** One step of the playout from a board with an open column. */
    lemma PlayoutStep(b: Board, mover: Player, t: nat)
      requires !IsFull(b) && |OpenColumns(b)| > 0
      ensures var avail := OpenColumns(b);
        var p := Opponent(mover);
        var b' := Drop(b, avail[rng(t) % |avail|], p);
        EmptyCells(b') < EmptyCells(b) &&
        Playout(b, mover, t) == if ConnectedFour(b', p) then (b', 1) else (Playout(b', p, t + 1).0, Playout(b', p, t + 1).1 + 1)
    {
      var avail := OpenColumns(b);
      DropFillsOneCell(b, avail[rng(t) % |avail|], Opponent(mover));
    }

    /** A playout stops only on a full board or when the player who moved last has four in a row. */
    lemma {:induction false} PlayoutEnds(b: Board, mover: Player, t: nat)
      ensures OpenColumns(Playout(b, mover, t).0) == [] || ConnectedFour(Playout(b, mover, t).0, LastMover(mover, Playout(b, mover, t).1))
      decreases EmptyCells(b)
    {
      if !IsFull(b) && |OpenColumns(b)| > 0 {
        var avail := OpenColumns(b);
        var p := Opponent(mover);
        var col := avail[rng(t) % |avail|];
        DropFillsOneCell(b, col, p);
        var b' := Drop(b, col, p);
        if !ConnectedFour(b', p) {
          PlayoutEnds(b', p, t + 1);
          LastMoverStep(mover, Playout(b', p, t + 1).1);
        }
      }
    }

    /**
     * simulation: play random moves on a copy of the node's board, the
     * players alternating from the opponent of node.player, until the board
     * is full or the last mover has four in a row; score the end for
     * node.player.  The tree is not changed.
     */
    method Simulation(tree: Tree, node: nat, t: nat) returns (score: real, t': nat)
      requires node < |tree.nodes|
      ensures var out := Playout(tree.nodes[node].board, tree.nodes[node].player, t);
        score == Result(out.0, tree.nodes[node].player) && t' == t + out.1
      ensures t' - t <= Rows * Columns
    {
      var simulationBoard := tree.nodes[node].board;
      var player: Player := tree.nodes[node].player;
      var originalPlayer := player;
      t' := t;
      ghost var goal := Playout(simulationBoard, player, t);
      PlayoutLength(simulationBoard, player, t);
      while !IsFull(simulationBoard) && |OpenColumns(simulationBoard)| > 0
        invariant t' - t <= goal.1
        invariant Playout(simulationBoard, player, t') == (goal.0, goal.1 - (t' - t))
        decreases EmptyCells(simulationBoard)
      {
        PlayoutStep(simulationBoard, player, t');
        var availMoves := OpenColumns(simulationBoard);
        player := Opponent(player);
        var col := availMoves[rng(t') % |availMoves|];
        simulationBoard := Drop(simulationBoard, col, player);
        t' := t' + 1;
        if ConnectedFour(simulationBoard, player) {
          break;
        }
      }
      score := Result(simulationBoard, originalPlayer);
    }

    // -------------------------------------------------------------------
    // backpropagation

    /**
     * backpropagation: add the result to the value, and one to the visits,
     * of node and each of its ancestors below the root; every other node is
     * unchanged.
     */
    method Backpropagation(tree: Tree, node: nat, simulationResult: real)
      requires tree.Valid() && node < |tree.nodes|
      modifies tree
      ensures tree.Valid()
      ensures |tree.nodes| == |old(tree.nodes)|
      ensures forall j :: 0 <= j < |tree.nodes| ==>
        tree.nodes[j] == if j in Path(old(tree.nodes), node) then Bumped(old(tree.nodes)[j], simulationResult)
                         else old(tree.nodes)[j]
      decreases node
    {
      if tree.nodes[node].IsRoot() {
        return;
      }
      ghost var before := tree.nodes;
      var parent := tree.nodes[node].parent.value;
      tree.nodes := tree.nodes[node := Bumped(tree.nodes[node], simulationResult)];
      SameShapeWellFormed(before, tree.nodes);
      PathFrame(before, tree.nodes, parent);
      Backpropagation(tree, parent, simulationResult);
    }

    // -------------------------------------------------------------------
    // best_child

    /** A child whose own player has four in a row on its board. */
    predicate Wins(n: Node)
    {
      ConnectedFour(n.board, n.player)
    }

    /** A child whose column, played by the opponent on the root board, gives the opponent four in a row. */
    predicate Blocks(rootBoard: Board, n: Node)
      requires 0 <= n.columnMove < Columns
    {
      ConnectedFour(Drop(rootBoard, n.columnMove, Opponent(player)), Opponent(player))
    }

    /** What best_child reads of child n of a node with board b. */
    function VerdictOf(b: Board, n: Node): Verdict
      requires 0 <= n.columnMove < Columns
    {
      Verdict(Wins(n), Blocks(b, n), n.value, n.numVisits)
    }

    /** What best_child reads of the children cs[..n]. */
    ghost function Verdicts(ns: seq<Node>, cs: seq<nat>, b: Board, n: nat): (vs: seq<Verdict>)
      requires n <= |cs| && ChildrenIn(ns, cs)
      ensures |vs| == n
    {
      if n == 0 then [] else Verdicts(ns, cs, b, n - 1) + [VerdictOf(b, ns[cs[n - 1]])]
    }

    /** The verdict on child j is what best_child reads of it. */
    lemma {:induction false} VerdictsAt(ns: seq<Node>, cs: seq<nat>, b: Board, n: nat, j: nat)
      requires j < n <= |cs| && ChildrenIn(ns, cs)
      ensures Verdicts(ns, cs, b, n)[j] == VerdictOf(b, ns[cs[j]])
    {
      if j < n - 1 {
        VerdictsAt(ns, cs, b, n - 1, j);
      }
    }

    /** What best_child reads of the children of node i. */
    ghost function ChildVerdicts(ns: seq<Node>, i: nat): seq<Verdict>
      requires Linked(ns) && i < |ns|
    {
      ChildrenOfLinked(ns, i);
      Verdicts(ns, ns[i].children, ns[i].board, |ns[i].children|)
    }

    /** best_child's answer for node i: None exactly when i has no child, and otherwise the child ChosenIn names. */
    ghost predicate BestChildOf(ns: seq<Node>, i: nat, best: Option<nat>)
      requires Linked(ns) && i < |ns|
    {
      var cs := ns[i].children;
      if cs == [] then best.None?
      else best.Some? && exists k :: 0 <= k < |cs| && best.value == cs[k] && ChosenIn(ChildVerdicts(ns, i), k)
    }

    /** At most one answer satisfies BestChildOf. */
    lemma BestChildUnique(ns: seq<Node>, i: nat, a: Option<nat>, b: Option<nat>)
      requires Linked(ns) && i < |ns| && BestChildOf(ns, i, a) && BestChildOf(ns, i, b)
      ensures a == b
    {
      var cs := ns[i].children;
      if cs != [] {
        var vs := ChildVerdicts(ns, i);
        var k :| 0 <= k < |cs| && a.value == cs[k] && ChosenIn(vs, k);
        var m :| 0 <= m < |cs| && b.value == cs[m] && ChosenIn(vs, m);
        ChosenUnique(vs, k, m);
      }
    }

    /** In a tree whose nodes below the root are all visited, best_child never divides by zero. */
    lemma VisitedReadVisited(ns: seq<Node>, i: nat)
      requires Linked(ns) && Visited(ns) && i < |ns|
      ensures ReadVisited(ChildVerdicts(ns, i))
    {
      var cs := ns[i].children;
      ChildrenOfLinked(ns, i);
      forall k | 0 <= k < |cs|
        ensures ChildVerdicts(ns, i)[k].visits > 0
      {
        VerdictsAt(ns, cs, ns[i].board, |cs|, k);
      }
    }

    /**
     * best_child: scan the children of node root in order; return the first
     * that wins; remember the last that blocks the opponent and the first of
     * highest value per visit; prefer the block.
     */
    method BestChild(tree: Tree, root: nat) returns (best: Option<nat>)
      requires Linked(tree.nodes) && root < |tree.nodes|
      requires ReadVisited(ChildVerdicts(tree.nodes, root))
      ensures BestChildOf(tree.nodes, root, best)
    {
      var ns := tree.nodes;
      var cs := ns[root].children;
      ChildrenOfLinked(ns, root);
      ghost var vs := ChildVerdicts(ns, root);
      var bestRatio := 0.0;
      var bestAction: Option<nat> := None;
      var urgentBlock: Option<nat> := None;
      ghost var urgentAt: Option<nat> := None;
      ghost var bestAt: Option<nat> := None;
      var k := 0;
      while k < |cs|
        invariant k <= |cs|
        invariant Scan(vs, k) == ScanState(None, urgentAt, bestAt, bestRatio)
        invariant urgentAt.Some? ==> urgentAt.value < k && urgentBlock == Some(cs[urgentAt.value])
        invariant urgentAt.None? ==> urgentBlock.None?
        invariant bestAt.Some? ==> bestAt.value < k && bestAction == Some(cs[bestAt.value])
        invariant bestAt.None? ==> bestAction.None?
      {
        var child := ns[cs[k]];
        VerdictsAt(ns, cs, ns[root].board, |cs|, k);
        if Wins(child) {
          ScanWinChosen(vs, k);
          return Some(cs[k]);
        }
        ScanAdvance(vs, k);
        if Blocks(ns[root].board, child) {
          urgentBlock, urgentAt := Some(cs[k]), Some(k);
        } else {
          var ratio := MeanValue(child.value, child.numVisits);
          if bestAction.None? || ratio > bestRatio {
            bestAction, bestRatio, bestAt := Some(cs[k]), ratio, Some(k);
          }
        }
        k := k + 1;
      }
      ScanChooses(vs);
      if urgentBlock.Some? {
        return urgentBlock;
      }
      return bestAction;
    }

    // -------------------------------------------------------------------
    // monte_carlo_tree_search

    /** The column of the chosen child, if there is one. */
    function MoveOf(ns: seq<Node>, best: Option<nat>): Option<int>
      requires best.Some? ==> best.value < |ns|
    {
      if best.None? then None else Some(ns[best.value].columnMove)
    }

    /**
     * One pass of the loop of monte_carlo_tree_search: selection from the
     * root with the agent's piece on the root board, simulation from the
     * leaf, and backpropagation of its result.
     */
    method Iteration(tree: Tree, t: nat) returns (t': nat)
      requires tree.Valid() && Visited(tree.nodes)
      modifies tree
      ensures tree.Valid() && Visited(tree.nodes)
      ensures tree.nodes[0].board == old(tree.nodes[0].board)
      ensures tree.nodes[0].numVisits == old(tree.nodes[0].numVisits)
      ensures tree.nodes[0].children != [] || OpenColumns(tree.nodes[0].board) == []
    {
      ghost var ns := tree.nodes;
      ghost var d := Descend(ns, 0);
      ghost var move: Column := if ns[d].unexpandedMoves == [] then 0
        else SelectRandomChild(ns[d].unexpandedMoves, rng(t));
      var node;
      node, t' := Selection(tree, 0, tree.nodes[0].board, player, t);
      ghost var mid := tree.nodes;
      var score;
      score, t' := Simulation(tree, node, t');
      Backpropagation(tree, node, score);
      SearchRound(ns, d, move, Drop(ns[0].board, move, player), player, mid, node, score, tree.nodes);
    }

    /**
     * monte_carlo_tree_search: count a visit of the root, run `iterations`
     * rounds of selection, simulation and backpropagation, and return the
     * column of best_child.  None stands for a root without children, where
     * the source fails on the missing child.
     */
    method MonteCarloTreeSearch(tree: Tree, iterations: nat, t: nat) returns (move: Option<int>, t': nat)
      requires tree.Valid() && Visited(tree.nodes)
      modifies tree
      ensures tree.Valid() && Visited(tree.nodes)
      ensures tree.nodes[0].board == old(tree.nodes[0].board)
      ensures tree.nodes[0].numVisits == old(tree.nodes[0].numVisits) + 1
      ensures iterations == 0 ==> tree.nodes[0].children == old(tree.nodes[0].children)
      ensures exists best :: BestChildOf(tree.nodes, 0, best) && move == MoveOf(tree.nodes, best)
      ensures move.Some? ==> move.value in OpenColumns(tree.nodes[0].board)
      ensures iterations > 0 ==> (move.Some? <==> OpenColumns(tree.nodes[0].board) != [])
    {
      ghost var before := tree.nodes;
      tree.nodes := tree.nodes[0 := tree.nodes[0].(numVisits := tree.nodes[0].numVisits + 1)];
      SameShapeWellFormed(before, tree.nodes);
      ghost var rootBoard := tree.nodes[0].board;
      ghost var rootVisits := tree.nodes[0].numVisits;
      t' := t;
      var i := 0;
      while i < iterations
        invariant i <= iterations
        invariant tree.Valid() && Visited(tree.nodes)
        invariant tree.nodes[0].board == rootBoard && tree.nodes[0].numVisits == rootVisits
        invariant i == 0 ==> tree.nodes[0].children == old(tree.nodes[0].children)
        invariant i > 0 ==> tree.nodes[0].children != [] || OpenColumns(rootBoard) == []
      {
        t' := Iteration(tree, t');
        i := i + 1;
      }
      VisitedReadVisited(tree.nodes, 0);
      var best := BestChild(tree, 0);
      move := if best.None? then None else Some(tree.nodes[best.value].columnMove);
      if best.Some? {
        ghost var k :| 0 <= k < |tree.nodes[0].children| && best.value == tree.nodes[0].children[k]
          && ChosenIn(ChildVerdicts(tree.nodes, 0), k);
        ChildMoveIsOpen(tree.nodes, 0, k);
      }
    }
  }

  /**
   * generate_move: the middle column while the bottom row is empty;
   * otherwise the move of a search of `iterations` rounds from a fresh root
   * holding board, whose draws start at rng(0).  The saved state is passed
   * back unchanged.
   */
  method GenerateMove<S>(board: Board, player: Player, savedState: Option<S>, rng: nat -> nat,
                         ucb1: (real, nat, nat) -> real, iterations: nat)
    returns (action: Option<int>, saved: Option<S>)
    ensures saved == savedState
    ensures (forall c :: 0 <= c < Columns ==> board[0][c] == NoPlayer) ==> action == Some(3)
    ensures (exists c :: 0 <= c < Columns && board[0][c] != NoPlayer) ==>
      (action.Some? ==> action.value in OpenColumns(board))
      && (action.Some? <==> iterations > 0 && OpenColumns(board) != [])
  {
    saved := savedState;
    if forall c :: 0 <= c < Columns ==> board[0][c] == NoPlayer {
      action := Some(3);
    } else {
      var root := new Tree(board, player);
      var mcts := new Mcts(player, rng, ucb1);
      var draws;
      action, draws := mcts.MonteCarloTreeSearch(root, iterations, 0);
    }
  }
}
