/** The Monte Carlo search tree (alpha_zero/mcts.rs): nodes live in one growing
    arena and refer to their children by index. Scores are reals; `sqrt`, the
    game rules and the network evaluation are function parameters. */
module Mcts {
  import opened GameTypes

  /** Prior and player switch of an edge, fixed when the edge is created. */
  datatype MoveStaticInfo = MoveStaticInfo(priority: real, playerSwitch: bool)

  /** The running statistics of an edge. */
  datatype MoveDynamicInfo = MoveDynamicInfo(totalScore: real, descends: nat)

  /** An edge: the arena index of the child node and the edge's statistics. */
  datatype Child = Child(index: nat, info: MoveStaticInfo, stats: MoveDynamicInfo)

  /** What an expanded node knows: its evaluation, whether it is terminal, its edges. */
  datatype NodeState = NodeState(value: real, isTerminal: bool, children: seq<Child>)

  /** A node: the game position and, once expanded, its state. */
  datatype MonteCarloNode<T> = MonteCarloNode(gameState: T, nodeState: Option<NodeState>)

  /* ---------- MonteCarloNode::get_state ---------- */

  /** `get_state`: a node is expanded at most once. An expanded node is returned
      unchanged with `None`; otherwise `calc_state` is applied to the position, its state
      is stored and its extra result returned. */
  function NodeGetState<T, A>(node: MonteCarloNode<T>, compute: T -> (NodeState, A)): (MonteCarloNode<T>, Option<A>)
  {
    if node.nodeState.Some? then (node, None)
    else
      var (state, additional) := compute(node.gameState);
      (MonteCarloNode(node.gameState, Some(state)), Some(additional))
  }

  /** On an expanded node `get_state` returns `None`, leaves the node unchanged and
      does not depend on the calculation (so it does not run it). */
  lemma NodeGetStateExpanded<T, A>(node: MonteCarloNode<T>, compute: T -> (NodeState, A), other: T -> (NodeState, A))
    requires node.nodeState.Some?
    ensures NodeGetState(node, compute) == (node, None)
    ensures NodeGetState(node, compute) == NodeGetState(node, other)
  {
  }

  /** On a fresh node `get_state` stores the calculated state, keeps the position and
      returns the extra result; a second call then does nothing. */
  lemma NodeGetStateOnce<T, A>(node: MonteCarloNode<T>, compute: T -> (NodeState, A), again: T -> (NodeState, A))
    requires node.nodeState.None?
    ensures var (n, r) := NodeGetState(node, compute);
      && n.gameState == node.gameState
      && n.nodeState == Some(compute(node.gameState).0)
      && r == Some(compute(node.gameState).1)
      && NodeGetState(n, again) == (n, None)
  {
  }

  /* ---------- NodeState::pick_next_move ---------- */

  /** Sum of the visit counts of the edges. */
  function TotalVisits(children: seq<Child>): nat
  {
    if children == [] then 0 else TotalVisits(children[..|children| - 1]) + children[|children| - 1].stats.descends
  }

  /** The mean score of an edge, 0 for an edge never visited. */
  function Mean(ch: Child): real
  {
    if ch.stats.descends != 0 then ch.stats.totalScore / (ch.stats.descends as real) else 0.0
  }

  /** The PUCT score of one edge; `total` is the sum of the visits of all siblings,
      used both under the square root and in the denominator. */
  function Score(ch: Child, c: real, sqrtTotal: real, total: nat): real
  {
    Mean(ch) + c * ch.info.priority * sqrtTotal / ((1 + total) as real)
  }

  /** The scores of all edges of a node, in order. */
  function Scores(children: seq<Child>, c: real, sqrt: real -> real): (r: seq<real>)
    ensures |r| == |children|
    ensures forall i :: 0 <= i < |children| ==>
      r[i] == Score(children[i], c, sqrt(TotalVisits(children) as real), TotalVisits(children))
  {
    var total := TotalVisits(children);
    seq(|children|, i requires 0 <= i < |children| => Score(children[i], c, sqrt(total as real), total))
  }

  /** `max_by` over the first `n` scores, which keeps the later of two equal
      elements: the index of the last maximal one. */
  function ArgMaxLast(xs: seq<real>, n: nat): (r: nat)
    requires 1 <= n <= |xs|
    ensures r < n
    ensures forall j :: 0 <= j < n ==> xs[j] <= xs[r]
    ensures forall j :: r < j < n ==> xs[j] < xs[r]
  {
    if n == 1 then 0
    else
      var best := ArgMaxLast(xs, n - 1);
      if xs[best] <= xs[n - 1] then n - 1 else best
  }

  /** `pick_next_move`: the edge with the greatest PUCT score; every later edge scores
      strictly less, so a tie goes to the last maximal edge. With no edges the
      source's `unwrap` panics, so at least one is required. */
  function PickNextMove(ns: NodeState, c: real, sqrt: real -> real): (m: nat)
    requires |ns.children| > 0
    ensures m < |ns.children|
    ensures var total := TotalVisits(ns.children);
      && (forall j :: 0 <= j < |ns.children| ==>
            Score(ns.children[j], c, sqrt(total as real), total) <= Score(ns.children[m], c, sqrt(total as real), total))
      && (forall j :: m < j < |ns.children| ==>
            Score(ns.children[j], c, sqrt(total as real), total) < Score(ns.children[m], c, sqrt(total as real), total))
  {
    var scores := Scores(ns.children, c, sqrt);
    ArgMaxLast(scores, |scores|)
  }

  /* ---------- expansion ---------- */

  /** The edges of a freshly evaluated node: the moves zipped with the policy, edge
      `i` pointing at arena index `nodesCnt + i`, with no visits and no score. */
  function NewChildren<M>(moves: seq<MoveDescription<M>>, policy: seq<real>, nodesCnt: nat): (r: seq<Child>)
    ensures |r| == Min(|moves|, |policy|)
    ensures forall i :: 0 <= i < |r| ==>
      r[i] == Child(nodesCnt + i, MoveStaticInfo(policy[i], moves[i].playerSwitch), MoveDynamicInfo(0.0, 0))
  {
    seq(Min(|moves|, |policy|), i requires 0 <= i < Min(|moves|, |policy|) =>
      Child(nodesCnt + i, MoveStaticInfo(policy[i], moves[i].playerSwitch), MoveDynamicInfo(0.0, 0)))
  }

  /** The closure handed to `get_state` in `do_simulations`: a terminal position
      becomes a terminal node with its score and no edges; otherwise the position is
      evaluated (network output turned into a per-move policy) and its moves returned. */
  function CalcState<T, M>(g: T, nodesCnt: nat, getState: T -> TerminationState<M>,
                           evaluate: (T, seq<MoveDescription<M>>) -> (real, seq<real>)): (NodeState, seq<MoveDescription<M>>)
  {
    match getState(g)
    case Terminal(score) => (NodeState(score, true, []), [])
    case Moves(moves) =>
      var (value, policy) := evaluate(g, moves);
      (NodeState(value, false, NewChildren(moves, policy, nodesCnt)), moves)
  }

  /** The nodes pushed for the moves of an expanded position, one per move, unexpanded. */
  function NewNodes<T, M>(g: T, moves: seq<MoveDescription<M>>, makeMove: (T, MoveDescription<M>) -> T): (r: seq<MonteCarloNode<T>>)
    ensures |r| == |moves|
    ensures forall i :: 0 <= i < |moves| ==> r[i] == MonteCarloNode(makeMove(g, moves[i]), None)
  {
    seq(|moves|, i requires 0 <= i < |moves| => MonteCarloNode(makeMove(g, moves[i]), None))
  }

  /** The arena after expanding the unexpanded node `cur`. */
  function ExpandAt<T, M>(nodes: seq<MonteCarloNode<T>>, cur: nat, getState: T -> TerminationState<M>,
                          makeMove: (T, MoveDescription<M>) -> T,
                          evaluate: (T, seq<MoveDescription<M>>) -> (real, seq<real>)): seq<MonteCarloNode<T>>
    requires cur < |nodes|
  {
    var g := nodes[cur].gameState;
    var (ns, moves) := CalcState(g, |nodes|, getState, evaluate);
    nodes[cur := MonteCarloNode(g, Some(ns))] + NewNodes(g, moves, makeMove)
  }

  /** Expanding a terminal position stores its score, creates no edge and no node;
      expanding a position with moves appends one node per move at the end of the
      arena, holding the position after that move, and gives edge `i` index
      `|nodes| + i`, the policy entry as prior and the move's player switch. */
  lemma ExpandAtShape<T, M>(nodes: seq<MonteCarloNode<T>>, cur: nat, getState: T -> TerminationState<M>,
                            makeMove: (T, MoveDescription<M>) -> T,
                            evaluate: (T, seq<MoveDescription<M>>) -> (real, seq<real>))
    requires cur < |nodes|
    ensures var g := nodes[cur].gameState;
      var r := ExpandAt(nodes, cur, getState, makeMove, evaluate);
      && r[..|nodes|] == nodes[cur := r[cur]]
      && r[cur].gameState == g && r[cur].nodeState.Some?
      && match getState(g)
        case Terminal(score) =>
          |r| == |nodes| && r[cur].nodeState.value == NodeState(score, true, [])
        case Moves(moves) =>
          var ns := r[cur].nodeState.value;
          var policy := evaluate(g, moves).1;
          && |r| == |nodes| + |moves|
          && ns.value == evaluate(g, moves).0 && !ns.isTerminal
          && |ns.children| == Min(|moves|, |policy|)
          && (forall i :: 0 <= i < |moves| ==> r[|nodes| + i] == MonteCarloNode(makeMove(g, moves[i]), None))
          && (forall i :: 0 <= i < |ns.children| ==>
                ns.children[i] == Child(|nodes| + i, MoveStaticInfo(policy[i], moves[i].playerSwitch), MoveDynamicInfo(0.0, 0)))
  {
  }

  /* ---------- backpropagation ---------- */

  /** An edge of the arena: an expanded node and one of its edge positions. */
  ghost predicate EdgeOk<T>(nodes: seq<MonteCarloNode<T>>, e: (nat, nat))
  {
    e.0 < |nodes| && nodes[e.0].nodeState.Some? && e.1 < |nodes[e.0].nodeState.value.children|
  }

  /** The edge at `e`. */
  function EdgeAt<T>(nodes: seq<MonteCarloNode<T>>, e: (nat, nat)): Child
    requires EdgeOk(nodes, e)
  {
    nodes[e.0].nodeState.value.children[e.1]
  }

  /** Statistics after one more visit scoring `v`. */
  function Visited(d: MoveDynamicInfo, v: real): MoveDynamicInfo
  {
    MoveDynamicInfo(d.totalScore + v, d.descends + 1)
  }

  /** The arena after the edge `e` is credited with one visit scoring `v`. */
  function Bump<T>(nodes: seq<MonteCarloNode<T>>, e: (nat, nat), v: real): seq<MonteCarloNode<T>>
    requires EdgeOk(nodes, e)
  {
    var ns := nodes[e.0].nodeState.value;
    var ch := ns.children[e.1];
    var ch' := Child(ch.index, ch.info, Visited(ch.stats, v));
    nodes[e.0 := MonteCarloNode(nodes[e.0].gameState, Some(NodeState(ns.value, ns.isTerminal, ns.children[e.1 := ch'])))]
  }

  /** An edge with its statistics forgotten. */
  function Erase(ch: Child): Child
  {
    Child(ch.index, ch.info, MoveDynamicInfo(0.0, 0))
  }

  /** A node with the statistics of its edges forgotten. */
  function EraseNode<T>(n: MonteCarloNode<T>): MonteCarloNode<T>
  {
    match n.nodeState
    case None => n
    case Some(ns) => MonteCarloNode(n.gameState, Some(NodeState(ns.value, ns.isTerminal,
      seq(|ns.children|, j requires 0 <= j < |ns.children| => Erase(ns.children[j])))))
  }

  /** The shape of the arena: positions, node states and edges, without statistics. */
  function Skeleton<T>(nodes: seq<MonteCarloNode<T>>): seq<MonteCarloNode<T>>
  {
    seq(|nodes|, i requires 0 <= i < |nodes| => EraseNode(nodes[i]))
  }

  /** Arenas of the same shape have the same edges, pointing at the same nodes with
      the same static information. */
  lemma SameSkeletonEdges<T>(a: seq<MonteCarloNode<T>>, b: seq<MonteCarloNode<T>>, e: (nat, nat))
    requires Skeleton(a) == Skeleton(b)
    ensures |a| == |b|
    ensures EdgeOk(a, e) <==> EdgeOk(b, e)
    ensures EdgeOk(a, e) ==> EdgeAt(a, e).index == EdgeAt(b, e).index && EdgeAt(a, e).info == EdgeAt(b, e).info
  {
    assert |Skeleton(a)| == |b|;
    if e.0 < |a| {
      assert EraseNode(a[e.0]) == Skeleton(a)[e.0] == Skeleton(b)[e.0] == EraseNode(b[e.0]);
      if a[e.0].nodeState.Some? && e.1 < |a[e.0].nodeState.value.children| {
        assert Erase(EdgeAt(a, e)) == EraseNode(a[e.0]).nodeState.value.children[e.1];
      }
    }
  }

  /** Crediting an edge changes only that edge's statistics. */
  lemma {:induction false} BumpFrame<T>(nodes: seq<MonteCarloNode<T>>, e: (nat, nat), v: real)
    requires EdgeOk(nodes, e)
    ensures Skeleton(Bump(nodes, e, v)) == Skeleton(nodes)
    ensures EdgeAt(Bump(nodes, e, v), e).stats == Visited(EdgeAt(nodes, e).stats, v)
    ensures forall f :: EdgeOk(nodes, f) && f != e ==> EdgeAt(Bump(nodes, e, v), f) == EdgeAt(nodes, f)
  {
    var r := Bump(nodes, e, v);
    forall i | 0 <= i < |nodes|
      ensures Skeleton(r)[i] == Skeleton(nodes)[i]
    {
      if i == e.0 {
        var ns := nodes[i].nodeState.value;
        var ns' := r[i].nodeState.value;
        var es := seq(|ns.children|, j requires 0 <= j < |ns.children| => Erase(ns.children[j]));
        var es' := seq(|ns'.children|, j requires 0 <= j < |ns'.children| => Erase(ns'.children[j]));
        assert es == es';
        assert EraseNode(r[i]) == MonteCarloNode(r[i].gameState, Some(NodeState(ns'.value, ns'.isTerminal, es')));
      } else {
        assert r[i] == nodes[i];
      }
    }
  }

  /** Crediting an edge keeps every edge of the arena. */
  lemma BumpKeepsEdges<T>(nodes: seq<MonteCarloNode<T>>, e: (nat, nat), v: real)
    requires EdgeOk(nodes, e)
    ensures forall f :: EdgeOk(nodes, f) ==> EdgeOk(Bump(nodes, e, v), f)
  {
  }

  /** Crediting an edge leaves any other edge as it was. */
  lemma BumpOther<T>(nodes: seq<MonteCarloNode<T>>, e: (nat, nat), v: real, f: (nat, nat))
    requires EdgeOk(nodes, e) && EdgeOk(nodes, f) && f != e
    ensures EdgeOk(Bump(nodes, e, v), f) && EdgeAt(Bump(nodes, e, v), f) == EdgeAt(nodes, f)
  {
  }

  /** The player-switch flags of the edges along a path. */
  function Switches<T>(nodes: seq<MonteCarloNode<T>>, path: seq<(nat, nat)>): (r: seq<bool>)
    requires forall k :: 0 <= k < |path| ==> EdgeOk(nodes, path[k])
    ensures |r| == |path|
    ensures forall k :: 0 <= k < |path| ==> r[k] == EdgeAt(nodes, path[k]).info.playerSwitch
  {
    seq(|path|, k requires 0 <= k < |path| => EdgeAt(nodes, path[k]).info.playerSwitch)
  }

  /** The effect of the `state_stack` popping loop: the edges are credited from the
      last to the first, the running value being inverted before it is added to an
      edge whose move switches the player. */
  function BackpropFrom<T>(nodes: seq<MonteCarloNode<T>>, path: seq<(nat, nat)>, value: real): (r: seq<MonteCarloNode<T>>)
    requires forall k :: 0 <= k < |path| ==> EdgeOk(nodes, path[k])
    ensures |r| == |nodes|
    decreases |path|
  {
    if path == [] then nodes
    else
      var e := path[|path| - 1];
      var v := LastValue(nodes, path, value);
      BumpKeepsEdges(nodes, e, v);
      BackpropFrom(Bump(nodes, e, v), path[..|path| - 1], v)
  }

  /** A path whose node indices strictly increase, as every descent's path does. */
  ghost predicate Increasing(path: seq<(nat, nat)>)
  {
    forall a, b :: 0 <= a < b < |path| ==> path[a].0 < path[b].0
  }

  /** Backpropagation keeps the shape of the arena. */
  lemma {:induction false} BackpropSkeleton<T>(nodes: seq<MonteCarloNode<T>>, path: seq<(nat, nat)>, value: real)
    requires forall k :: 0 <= k < |path| ==> EdgeOk(nodes, path[k])
    ensures Skeleton(BackpropFrom(nodes, path, value)) == Skeleton(nodes)
    decreases |path|
  {
    if path != [] {
      var e := path[|path| - 1];
      var v := if EdgeAt(nodes, e).info.playerSwitch then 1.0 - value else value;
      BumpFrame(nodes, e, v);
      forall k | 0 <= k < |path| - 1
        ensures EdgeOk(Bump(nodes, e, v), path[k])
      {
        SameSkeletonEdges(nodes, Bump(nodes, e, v), path[k]);
      }
      BackpropSkeleton(Bump(nodes, e, v), path[..|path| - 1], v);
    }
  }

  /** Backpropagation leaves every edge off the path as it was. */
  lemma {:induction false} BackpropOffPath<T>(nodes: seq<MonteCarloNode<T>>, path: seq<(nat, nat)>, value: real, f: (nat, nat))
    requires forall k :: 0 <= k < |path| ==> EdgeOk(nodes, path[k])
    requires EdgeOk(nodes, f) && f !in path
    ensures var r := BackpropFrom(nodes, path, value);
      EdgeOk(r, f) && EdgeAt(r, f) == EdgeAt(nodes, f)
    decreases |path|
  {
    if path != [] {
      var e := path[|path| - 1];
      var v := if EdgeAt(nodes, e).info.playerSwitch then 1.0 - value else value;
      BumpFrame(nodes, e, v);
      forall k | 0 <= k < |path| - 1
        ensures EdgeOk(Bump(nodes, e, v), path[k])
      {
        SameSkeletonEdges(nodes, Bump(nodes, e, v), path[k]);
      }
      SameSkeletonEdges(nodes, Bump(nodes, e, v), f);
      assert f != e;
      assert f !in path[..|path| - 1];
      BackpropOffPath(Bump(nodes, e, v), path[..|path| - 1], v, f);
    }
  }

  /** The value the last edge of a path is credited with, and the rest of the path. */
  function LastValue<T>(nodes: seq<MonteCarloNode<T>>, path: seq<(nat, nat)>, value: real): real
    requires forall k :: 0 <= k < |path| ==> EdgeOk(nodes, path[k])
    requires path != []
  {
    if EdgeAt(nodes, path[|path| - 1]).info.playerSwitch then 1.0 - value else value
  }

  /** One pop of the path stack: the last edge is credited, and the rest of the path
      is still made of edges with the same player switches. */
  lemma BackpropUnfold<T>(nodes: seq<MonteCarloNode<T>>, path: seq<(nat, nat)>, value: real)
    requires forall k :: 0 <= k < |path| ==> EdgeOk(nodes, path[k])
    requires path != []
    ensures var e := path[|path| - 1];
      var v := LastValue(nodes, path, value);
      var init := path[..|path| - 1];
      && EdgeOk(nodes, e)
      && (forall k :: 0 <= k < |init| ==> EdgeOk(Bump(nodes, e, v), init[k]))
      && Switches(Bump(nodes, e, v), init) == Switches(nodes, path)[..|path| - 1]
      && BackpropFrom(nodes, path, value) == BackpropFrom(Bump(nodes, e, v), init, v)
  {
    var e := path[|path| - 1];
    var v := LastValue(nodes, path, value);
    var nodes' := Bump(nodes, e, v);
    BumpFrame(nodes, e, v);
    forall i | 0 <= i < |path| - 1
      ensures EdgeOk(nodes', path[i]) && EdgeAt(nodes', path[i]).info == EdgeAt(nodes, path[i]).info
    {
      SameSkeletonEdges(nodes, nodes', path[i]);
    }
  }

  /** One iteration of the popping loop, stated on the arena it leaves behind. */
  lemma PopStep<T>(nodes: seq<MonteCarloNode<T>>, path: seq<(nat, nat)>, value: real,
                   nodes': seq<MonteCarloNode<T>>, v: real)
    requires forall k :: 0 <= k < |path| ==> EdgeOk(nodes, path[k])
    requires path != []
    requires v == LastValue(nodes, path, value)
    requires nodes' == Bump(nodes, path[|path| - 1], v)
    ensures forall k :: 0 <= k < |path| - 1 ==> EdgeOk(nodes', path[k])
    ensures BackpropFrom(nodes', path[..|path| - 1], v) == BackpropFrom(nodes, path, value)
    ensures Skeleton(nodes') == Skeleton(nodes)
  {
    BackpropUnfold(nodes, path, value);
    BumpFrame(nodes, path[|path| - 1], v);
  }

  /** Dropping the last edge of an increasing path leaves an increasing path with the
      same earlier edges, none of them the dropped one. */
  lemma PathInit(path: seq<(nat, nat)>, k: nat)
    requires Increasing(path) && k < |path| - 1
    ensures Increasing(path[..|path| - 1])
    ensures path[..|path| - 1][k] == path[k] && path[k] != path[|path| - 1]
  {
    assert path[k].0 < path[|path| - 1].0;
  }

  /** A suffix of a sequence is the suffix of its front followed by its last element. */
  lemma SuffixSnoc(s: seq<bool>, k: nat)
    requires k < |s|
    ensures s[k..] == s[..|s| - 1][k..] + [s[|s| - 1]]
  {
  }

  /** Counting one more flag at the end of a suffix is one more inversion of the value. */
  lemma InvertedSnoc(value: real, sw: seq<bool>, flag: bool)
    ensures Inverted(value, CountTrue(sw + [flag])) ==
      Inverted(if flag then 1.0 - value else value, CountTrue(sw))
  {
    CountTrueAppend(sw, [flag]);
    assert CountTrue([flag]) == CountTrue([flag][1..]) + (if flag then 1 else 0);
    InvertedAdd(value, if flag then 1 else 0, CountTrue(sw));
  }

  /** The last edge of a path is credited first, with the leaf value inverted
      once if its own move switches the player. */
  lemma BackpropLast<T>(nodes: seq<MonteCarloNode<T>>, path: seq<(nat, nat)>, value: real)
    requires forall k :: 0 <= k < |path| ==> EdgeOk(nodes, path[k])
    requires Increasing(path) && path != []
    ensures var r := BackpropFrom(nodes, path, value);
      var e := path[|path| - 1];
      && EdgeOk(r, e)
      && EdgeAt(r, e).stats == Visited(EdgeAt(nodes, e).stats, LastValue(nodes, path, value))
  {
    var e := path[|path| - 1];
    var v := LastValue(nodes, path, value);
    var init := path[..|path| - 1];
    BackpropUnfold(nodes, path, value);
    BumpFrame(nodes, e, v);
    assert e !in init;
    SameSkeletonEdges(nodes, Bump(nodes, e, v), e);
    BackpropOffPath(Bump(nodes, e, v), init, v, e);
  }

  /** Backpropagation along an increasing path credits edge `k` of it with one visit
      scoring the leaf value inverted once per player switch among edges `k..`. */
  lemma {:induction false} BackpropOnPath<T>(nodes: seq<MonteCarloNode<T>>, path: seq<(nat, nat)>, value: real, k: nat)
    requires forall k :: 0 <= k < |path| ==> EdgeOk(nodes, path[k])
    requires Increasing(path) && k < |path|
    ensures var r := BackpropFrom(nodes, path, value);
      && EdgeOk(r, path[k])
      && EdgeAt(r, path[k]).stats == Visited(EdgeAt(nodes, path[k]).stats, Inverted(value, CountTrue(Switches(nodes, path)[k..])))
    decreases |path|
  {
    var n := |path|;
    var e := path[n - 1];
    var flag := EdgeAt(nodes, e).info.playerSwitch;
    var sw := Switches(nodes, path);
    if k == n - 1 {
      BackpropLast(nodes, path, value);
      assert sw[k..] == [] + [flag];
      InvertedSnoc(value, [], flag);
    } else {
      var v := LastValue(nodes, path, value);
      var nodes' := Bump(nodes, e, v);
      var init := path[..n - 1];
      BackpropUnfold(nodes, path, value);
      PathInit(path, k);
      BumpOther(nodes, e, v, path[k]);
      BackpropOnPath(nodes', init, v, k);
      SuffixSnoc(sw, k);
      InvertedSnoc(value, sw[..n - 1][k..], flag);
    }
  }

  /* ---------- the arena ---------- */

  /** Node `i` is well formed: once expanded, it is terminal exactly when it has no
      edges, and every edge points at a later node of the arena. */
  ghost predicate NodeOk<T>(nodes: seq<MonteCarloNode<T>>, i: nat)
    requires i < |nodes|
  {
    match nodes[i].nodeState
    case None => true
    case Some(ns) =>
      && (ns.isTerminal <==> |ns.children| == 0)
      && forall j :: 0 <= j < |ns.children| ==> i < ns.children[j].index < |nodes|
  }

  /** The arena invariant: a root exists and every node is well formed. */
  ghost predicate ArenaOk<T>(nodes: seq<MonteCarloNode<T>>)
  {
    |nodes| > 0 && forall i :: 0 <= i < |nodes| ==> NodeOk(nodes, i)
  }

  /** The game never reports an empty list of moves and the evaluation gives at
      least one policy entry, so every non-terminal node gets an edge; otherwise the
      next descent through it would reach the `unwrap` of an empty `max_by`. */
  ghost predicate Playable<T(!new), M>(getState: T -> TerminationState<M>,
                                 evaluate: (T, seq<MoveDescription<M>>) -> (real, seq<real>))
  {
    forall g :: getState(g).Moves? ==> |getState(g).moves| > 0 && |evaluate(g, getState(g).moves).1| > 0
  }

  /** `b` grows `a`: no node is removed, no position changes, and an expanded node
      keeps its value, its terminal flag and its edges (only their statistics move). */
  ghost predicate Extends<T>(a: seq<MonteCarloNode<T>>, b: seq<MonteCarloNode<T>>)
  {
    && |a| <= |b|
    && forall i :: 0 <= i < |a| ==>
         && b[i].gameState == a[i].gameState
         && (a[i].nodeState.Some? ==> EraseNode(b[i]) == EraseNode(a[i]))
  }

  lemma ExtendsTrans<T>(a: seq<MonteCarloNode<T>>, b: seq<MonteCarloNode<T>>, c: seq<MonteCarloNode<T>>)
    requires Extends(a, b) && Extends(b, c)
    ensures Extends(a, c)
  {
    forall i | 0 <= i < |a| && a[i].nodeState.Some?
      ensures EraseNode(c[i]) == EraseNode(a[i])
    {
      assert EraseNode(b[i]).nodeState.Some?;
    }
  }

  /** Arenas of the same shape: one grows the other, and both or neither are well formed. */
  lemma SameSkeletonArena<T>(a: seq<MonteCarloNode<T>>, b: seq<MonteCarloNode<T>>)
    requires Skeleton(a) == Skeleton(b) && ArenaOk(a)
    ensures ArenaOk(b) && Extends(a, b)
  {
    assert |Skeleton(a)| == |b|;
    forall i | 0 <= i < |a|
      ensures NodeOk(b, i) && b[i].gameState == a[i].gameState
      ensures a[i].nodeState.Some? ==> EraseNode(b[i]) == EraseNode(a[i])
    {
      assert EraseNode(a[i]) == Skeleton(a)[i] == Skeleton(b)[i] == EraseNode(b[i]);
      assert NodeOk(a, i);
      if a[i].nodeState.Some? {
        var cs := a[i].nodeState.value.children;
        var cs' := b[i].nodeState.value.children;
        assert |cs| == |cs'|;
        forall j | 0 <= j < |cs|
          ensures cs'[j].index == cs[j].index
        {
          assert Erase(cs[j]) == EraseNode(a[i]).nodeState.value.children[j];
          assert Erase(cs'[j]) == EraseNode(b[i]).nodeState.value.children[j];
        }
      }
    }
  }

  /** The arena after the descent ends at `leaf`: expanded there if it was not. */
  function Expanded<T, M>(nodes: seq<MonteCarloNode<T>>, leaf: nat, getState: T -> TerminationState<M>,
                          makeMove: (T, MoveDescription<M>) -> T,
                          evaluate: (T, seq<MoveDescription<M>>) -> (real, seq<real>)): (r: seq<MonteCarloNode<T>>)
    requires leaf < |nodes|
    ensures |nodes| <= |r| && r[leaf].nodeState.Some?
    ensures nodes[leaf].nodeState.Some? ==> r == nodes
  {
    if nodes[leaf].nodeState.Some? then nodes else ExpandAt(nodes, leaf, getState, makeMove, evaluate)
  }

  /** Expanding a fresh node leaves every existing edge as it was. */
  lemma ExpandAtKeepsEdges<T, M>(nodes: seq<MonteCarloNode<T>>, cur: nat, getState: T -> TerminationState<M>,
                                 makeMove: (T, MoveDescription<M>) -> T,
                                 evaluate: (T, seq<MoveDescription<M>>) -> (real, seq<real>))
    requires cur < |nodes| && nodes[cur].nodeState.None?
    ensures var r := ExpandAt(nodes, cur, getState, makeMove, evaluate);
      forall f :: EdgeOk(nodes, f) ==> EdgeOk(r, f) && EdgeAt(r, f) == EdgeAt(nodes, f)
  {
  }

  /** Expanding a fresh node of a well-formed arena keeps it well formed, grows it,
      and leaves every existing edge as it was. */
  lemma ExpandAtArena<T(!new), M>(nodes: seq<MonteCarloNode<T>>, cur: nat, getState: T -> TerminationState<M>,
                            makeMove: (T, MoveDescription<M>) -> T,
                            evaluate: (T, seq<MoveDescription<M>>) -> (real, seq<real>))
    requires ArenaOk(nodes) && cur < |nodes| && nodes[cur].nodeState.None? && Playable(getState, evaluate)
    ensures var r := ExpandAt(nodes, cur, getState, makeMove, evaluate);
      && ArenaOk(r) && Extends(nodes, r)
      && forall f :: EdgeOk(nodes, f) ==> EdgeOk(r, f) && EdgeAt(r, f) == EdgeAt(nodes, f)
  {
    var r := ExpandAt(nodes, cur, getState, makeMove, evaluate);
    ExpandAtShape(nodes, cur, getState, makeMove, evaluate);
    forall i | 0 <= i < |r|
      ensures NodeOk(r, i)
    {
      if i < |nodes| && i != cur {
        assert r[i] == nodes[i] && NodeOk(nodes, i);
      }
    }
  }

  /** A chain of edges from `start` to `leaf`: each edge leads to the node the next
      edge leaves from, the last one to `leaf`. */
  ghost predicate Linked<T>(nodes: seq<MonteCarloNode<T>>, start: nat, path: seq<(nat, nat)>, leaf: nat)
  {
    && (forall k :: 0 <= k < |path| ==> EdgeOk(nodes, path[k]))
    && (forall k :: 0 <= k < |path| - 1 ==> EdgeAt(nodes, path[k]).index == path[k + 1].0)
    && (if path == [] then leaf == start else path[0].0 == start && EdgeAt(nodes, path[|path| - 1]).index == leaf)
  }

  /** The descent's path from `start` to `leaf`: a chain of edges where each step
      leaves a non-terminal node through the edge `pick_next_move` chooses. */
  ghost predicate PathTo<T>(nodes: seq<MonteCarloNode<T>>, start: nat, path: seq<(nat, nat)>, leaf: nat,
                            c: real, sqrt: real -> real)
  {
    && Linked(nodes, start, path, leaf)
    && (forall k :: 0 <= k < |path| ==>
          && !nodes[path[k].0].nodeState.value.isTerminal
          && path[k].1 == PickNextMove(nodes[path[k].0].nodeState.value, c, sqrt))
  }

  /** A chain of edges extends by an edge leaving its end. */
  lemma LinkedSnoc<T>(nodes: seq<MonteCarloNode<T>>, start: nat, path: seq<(nat, nat)>, leaf: nat, e: (nat, nat))
    requires Linked(nodes, start, path, leaf) && EdgeOk(nodes, e) && e.0 == leaf
    ensures Linked(nodes, start, path + [e], EdgeAt(nodes, e).index)
  {
    var p := path + [e];
    forall k | 0 <= k < |p|
      ensures EdgeOk(nodes, p[k])
    {
      if k < |path| {
        assert p[k] == path[k];
      }
    }
    forall k | 0 <= k < |p| - 1
      ensures EdgeAt(nodes, p[k]).index == p[k + 1].0
    {
      assert p[k] == path[k];
    }
  }

  /** A descent path extends through the edge `pick_next_move` chooses at its
      expanded, non-terminal end, to a later node of the arena. */
  lemma PathToSnoc<T>(nodes: seq<MonteCarloNode<T>>, start: nat, path: seq<(nat, nat)>, leaf: nat,
                      c: real, sqrt: real -> real)
    requires ArenaOk(nodes) && leaf < |nodes| && PathTo(nodes, start, path, leaf, c, sqrt)
    requires nodes[leaf].nodeState.Some? && !nodes[leaf].nodeState.value.isTerminal
    ensures var ns := nodes[leaf].nodeState.value;
      && |ns.children| > 0
      && var m := PickNextMove(ns, c, sqrt);
         && leaf < ns.children[m].index < |nodes|
         && PathTo(nodes, start, path + [(leaf, m)], ns.children[m].index, c, sqrt)
  {
    assert NodeOk(nodes, leaf);
    var ns := nodes[leaf].nodeState.value;
    var m := PickNextMove(ns, c, sqrt);
    var p := path + [(leaf, m)];
    LinkedSnoc(nodes, start, path, leaf, (leaf, m));
    forall k | 0 <= k < |p|
      ensures !nodes[p[k].0].nodeState.value.isTerminal && p[k].1 == PickNextMove(nodes[p[k].0].nodeState.value, c, sqrt)
    {
      if k < |path| {
        assert p[k] == path[k];
      }
    }
  }

  /** In a well-formed arena a path's nodes strictly increase and all come before
      its leaf. */
  lemma {:induction false} PathIncreasing<T>(nodes: seq<MonteCarloNode<T>>, start: nat, path: seq<(nat, nat)>, leaf: nat)
    requires ArenaOk(nodes) && Linked(nodes, start, path, leaf)
    ensures Increasing(path)
    ensures forall k :: 0 <= k < |path| ==> path[k].0 < leaf
  {
    forall k | 0 <= k < |path| - 1
      ensures path[k].0 < path[k + 1].0
    {
      assert NodeOk(nodes, path[k].0);
    }
    if path != [] {
      assert NodeOk(nodes, path[|path| - 1].0);
    }
    forall a, b | 0 <= a < b < |path|
      ensures path[a].0 < path[b].0
    {
      StepUp(path, a, b);
    }
    forall k | 0 <= k < |path| - 1
      ensures path[k].0 < leaf
    {
      StepUp(path, k, |path| - 1);
    }
  }

  /** Links that each go up chain into a strict increase. */
  lemma {:induction false} StepUp(path: seq<(nat, nat)>, a: nat, b: nat)
    requires a < b < |path|
    requires forall k :: 0 <= k < |path| - 1 ==> path[k].0 < path[k + 1].0
    ensures path[a].0 < path[b].0
    decreases b - a
  {
    if a + 1 < b {
      StepUp(path, a + 1, b);
    }
  }

  /** What one simulation does to the arena: descend along `path` to `leaf`, expand
      `leaf` if it is fresh, and back its value up along the path. */
  ghost function Simulated<T, M>(nodes: seq<MonteCarloNode<T>>, path: seq<(nat, nat)>, leaf: nat,
                                 getState: T -> TerminationState<M>,
                                 makeMove: (T, MoveDescription<M>) -> T,
                                 evaluate: (T, seq<MoveDescription<M>>) -> (real, seq<real>)): (r: seq<MonteCarloNode<T>>)
    requires leaf < |nodes|
    requires forall k :: 0 <= k < |path| ==> EdgeOk(nodes, path[k])
    ensures |nodes| <= |r|
  {
    var e := Expanded(nodes, leaf, getState, makeMove, evaluate);
    if nodes[leaf].nodeState.Some? then BackpropFrom(e, path, e[leaf].nodeState.value.value)
    else
      ExpandAtKeepsEdges(nodes, leaf, getState, makeMove, evaluate);
      BackpropFrom(e, path, e[leaf].nodeState.value.value)
  }

  /** The value a simulation backs up: the evaluation stored at its leaf. */
  function LeafValue<T, M>(nodes: seq<MonteCarloNode<T>>, leaf: nat, getState: T -> TerminationState<M>,
                           makeMove: (T, MoveDescription<M>) -> T,
                           evaluate: (T, seq<MoveDescription<M>>) -> (real, seq<real>)): real
    requires leaf < |nodes|
  {
    Expanded(nodes, leaf, getState, makeMove, evaluate)[leaf].nodeState.value.value
  }

  /** Expanding the leaf, when it is fresh, keeps the arena well formed, grows it,
      leaves every existing edge as it was, and stores a value at the leaf. */
  lemma ExpandedKeeps<T(!new), M>(nodes: seq<MonteCarloNode<T>>, leaf: nat, path: seq<(nat, nat)>,
                                  getState: T -> TerminationState<M>,
                                  makeMove: (T, MoveDescription<M>) -> T,
                                  evaluate: (T, seq<MoveDescription<M>>) -> (real, seq<real>))
    requires ArenaOk(nodes) && leaf < |nodes| && Playable(getState, evaluate)
    requires forall k :: 0 <= k < |path| ==> EdgeOk(nodes, path[k])
    ensures var e := Expanded(nodes, leaf, getState, makeMove, evaluate);
      && ArenaOk(e) && Extends(nodes, e) && e[leaf].nodeState.Some?
      && (forall f :: EdgeOk(nodes, f) ==> EdgeOk(e, f) && EdgeAt(e, f) == EdgeAt(nodes, f))
      && Switches(e, path) == Switches(nodes, path)
  {
    if nodes[leaf].nodeState.None? {
      ExpandAtArena(nodes, leaf, getState, makeMove, evaluate);
    }
  }

  /** Backpropagation along an increasing path keeps the arena well formed and
      grows it, credits every edge of the path with one visit and the value inverted
      once per switch from that edge to the end, and changes no other edge. */
  lemma BackpropStats<T>(nodes: seq<MonteCarloNode<T>>, path: seq<(nat, nat)>, v: real)
    requires ArenaOk(nodes) && Increasing(path)
    requires forall k :: 0 <= k < |path| ==> EdgeOk(nodes, path[k])
    ensures var r := BackpropFrom(nodes, path, v);
      && ArenaOk(r) && Extends(nodes, r)
      && (forall k :: 0 <= k < |path| ==>
            (EdgeOk(r, path[k]) &&
             EdgeAt(r, path[k]).stats == Visited(EdgeAt(nodes, path[k]).stats, Inverted(v, CountTrue(Switches(nodes, path)[k..])))))
      && (forall f :: EdgeOk(nodes, f) && f !in path ==> EdgeOk(r, f) && EdgeAt(r, f) == EdgeAt(nodes, f))
  {
    var r := BackpropFrom(nodes, path, v);
    BackpropSkeleton(nodes, path, v);
    SameSkeletonArena(nodes, r);
    forall k | 0 <= k < |path|
      ensures EdgeOk(r, path[k])
      ensures EdgeAt(r, path[k]).stats == Visited(EdgeAt(nodes, path[k]).stats, Inverted(v, CountTrue(Switches(nodes, path)[k..])))
    {
      BackpropOnPath(nodes, path, v, k);
    }
    forall f | EdgeOk(nodes, f) && f !in path
      ensures EdgeOk(r, f) && EdgeAt(r, f) == EdgeAt(nodes, f)
    {
      BackpropOffPath(nodes, path, v, f);
    }
  }

  /** One simulation keeps the arena well formed and only grows it; it adds one visit
      to exactly the edges of its path, edge `k` scoring the leaf value inverted once
      per player switch from that edge down to the leaf, and changes no other edge. */
  lemma SimulatedStats<T(!new), M>(nodes: seq<MonteCarloNode<T>>, start: nat, path: seq<(nat, nat)>, leaf: nat,
                                   c: real, sqrt: real -> real,
                                   getState: T -> TerminationState<M>,
                                   makeMove: (T, MoveDescription<M>) -> T,
                                   evaluate: (T, seq<MoveDescription<M>>) -> (real, seq<real>))
    requires ArenaOk(nodes) && leaf < |nodes| && Playable(getState, evaluate)
    requires PathTo(nodes, start, path, leaf, c, sqrt)
    ensures var r := Simulated(nodes, path, leaf, getState, makeMove, evaluate);
      var v := LeafValue(nodes, leaf, getState, makeMove, evaluate);
      && ArenaOk(r) && Extends(nodes, r)
      && (forall k :: 0 <= k < |path| ==>
            (EdgeOk(r, path[k]) &&
             EdgeAt(r, path[k]).stats == Visited(EdgeAt(nodes, path[k]).stats, Inverted(v, CountTrue(Switches(nodes, path)[k..])))))
      && (forall f :: EdgeOk(nodes, f) && f !in path ==> EdgeOk(r, f) && EdgeAt(r, f) == EdgeAt(nodes, f))
  {
    var e := Expanded(nodes, leaf, getState, makeMove, evaluate);
    var v := LeafValue(nodes, leaf, getState, makeMove, evaluate);
    ExpandedKeeps(nodes, leaf, path, getState, makeMove, evaluate);
    PathIncreasing(nodes, start, path, leaf);
    BackpropStats(e, path, v);
    assert Simulated(nodes, path, leaf, getState, makeMove, evaluate) == BackpropFrom(e, path, v);
    ExtendsTrans(nodes, e, BackpropFrom(e, path, v));
  }

  /** One more visit on one edge is one more visit in the sum. */
  lemma {:induction false} TotalVisitsOneMore(a: seq<Child>, b: seq<Child>, m: nat)
    requires |a| == |b| && m < |a|
    requires b[m].stats.descends == a[m].stats.descends + 1
    requires forall j :: 0 <= j < |a| && j != m ==> b[j].stats.descends == a[j].stats.descends
    ensures TotalVisits(b) == TotalVisits(a) + 1
    decreases |a|
  {
    var n := |a| - 1;
    if m < n {
      TotalVisitsOneMore(a[..n], b[..n], m);
    } else {
      TotalVisitsSame(a[..n], b[..n]);
    }
  }

  /** Edges with the same visit counts have the same sum. */
  lemma {:induction false} TotalVisitsSame(a: seq<Child>, b: seq<Child>)
    requires |a| == |b|
    requires forall j :: 0 <= j < |a| ==> b[j].stats.descends == a[j].stats.descends
    ensures TotalVisits(b) == TotalVisits(a)
    decreases |a|
  {
    if a != [] {
      TotalVisitsSame(a[..|a| - 1], b[..|b| - 1]);
    }
  }

  /** A sibling of the first edge of an increasing path is not on the path. */
  lemma SiblingOffPath(path: seq<(nat, nat)>, start: nat, m: nat, j: nat)
    requires Increasing(path) && path != [] && path[0] == (start, m) && j != m
    ensures (start, j) !in path
  {
    forall k | 0 <= k < |path|
      ensures path[k] != (start, j)
    {
      if k > 0 {
        assert path[0].0 < path[k].0;
      }
    }
  }

  /** A simulation from an expanded non-terminal node passes through it, and so adds
      exactly one visit to the edges of that node. */
  lemma SimulatedRootVisit<T(!new), M>(nodes: seq<MonteCarloNode<T>>, start: nat, path: seq<(nat, nat)>, leaf: nat,
                                       c: real, sqrt: real -> real,
                                       getState: T -> TerminationState<M>,
                                       makeMove: (T, MoveDescription<M>) -> T,
                                       evaluate: (T, seq<MoveDescription<M>>) -> (real, seq<real>))
    requires ArenaOk(nodes) && leaf < |nodes| && Playable(getState, evaluate)
    requires PathTo(nodes, start, path, leaf, c, sqrt)
    requires start < |nodes| && nodes[start].nodeState.Some? && !nodes[start].nodeState.value.isTerminal
    requires nodes[leaf].nodeState.None? || nodes[leaf].nodeState.value.isTerminal
    ensures var r := Simulated(nodes, path, leaf, getState, makeMove, evaluate);
      r[start].nodeState.Some? &&
      TotalVisits(r[start].nodeState.value.children) == TotalVisits(nodes[start].nodeState.value.children) + 1
  {
    var r := Simulated(nodes, path, leaf, getState, makeMove, evaluate);
    SimulatedStats(nodes, start, path, leaf, c, sqrt, getState, makeMove, evaluate);
    assert path != [];
    PathIncreasing(nodes, start, path, leaf);
    var m := path[0].1;
    var a := nodes[start].nodeState.value.children;
    assert EraseNode(r[start]) == EraseNode(nodes[start]);
    var b := r[start].nodeState.value.children;
    assert |b| == |EraseNode(r[start]).nodeState.value.children|;
    assert EdgeAt(r, (start, m)).stats == EdgeAt(r, path[0]).stats;
    forall j | 0 <= j < |a| && j != m
      ensures b[j].stats.descends == a[j].stats.descends
    {
      assert EdgeOk(nodes, (start, j));
      SiblingOffPath(path, start, m, j);
      assert EdgeAt(r, (start, j)) == EdgeAt(nodes, (start, j));
    }
    TotalVisitsOneMore(a, b, m);
  }

  /* ---------- MonteCarloTree ---------- */

  /** The tree: an arena of nodes addressed by index. The network handle of the
      source is the `evaluate` parameter of `DoSimulations`. */
  class MonteCarloTree<T(!new)> {
    var nodes: seq<MonteCarloNode<T>>

    ghost predicate Valid()
      reads this
    {
      ArenaOk(nodes)
    }

    /** `new`: a single unexpanded root at index 0. */
    constructor (state: T)
      ensures Valid() && nodes == [MonteCarloNode(state, None)]
    {
      nodes := [MonteCarloNode(state, None)];
    }

    /** The descent of one simulation, the `loop` of `do_simulations`: from `state`,
        take the edge `pick_next_move` chooses until a node is found that is
        terminal or was not yet expanded; expand that one and return its value. */
    method Descend<M>(state: nat, cpuct: real, getState: T -> TerminationState<M>,
                      makeMove: (T, MoveDescription<M>) -> T,
                      evaluate: (T, seq<MoveDescription<M>>) -> (real, seq<real>),
                      sqrt: real -> real)
      returns (path: seq<(nat, nat)>, leaf: nat, value: real)
      requires Valid() && state < |nodes| && Playable(getState, evaluate)
      modifies this
      ensures leaf < |old(nodes)| && PathTo(old(nodes), state, path, leaf, cpuct, sqrt)
      ensures old(nodes)[leaf].nodeState.None? || old(nodes)[leaf].nodeState.value.isTerminal
      ensures nodes == Expanded(old(nodes), leaf, getState, makeMove, evaluate)
      ensures value == LeafValue(old(nodes), leaf, getState, makeMove, evaluate)
      ensures Valid()
    {
      var cur := state;
      path := [];
      while true
        invariant nodes == old(nodes) && cur < |nodes|
        invariant PathTo(nodes, state, path, cur, cpuct, sqrt)
        decreases |nodes| - cur
      {
        ghost var before := nodes;
        var finish := ExpandNode(cur, getState, makeMove, evaluate);
        var ns := nodes[cur].nodeState.value;
        if finish {
          value := ns.value;
          leaf := cur;
          return;
        }
        assert nodes == before;
        PathToSnoc(nodes, state, path, cur, cpuct, sqrt);
        var m := PickNextMove(ns, cpuct, sqrt);
        path := path + [(cur, m)];
        cur := ns.children[m].index;
      }
    }

    /** The `get_state` call of the descent with the closure `calc_state`, followed
        by one pushed node per returned move. The descent stops here when the node
        was fresh or is terminal. */
    method ExpandNode<M>(cur: nat, getState: T -> TerminationState<M>,
                         makeMove: (T, MoveDescription<M>) -> T,
                         evaluate: (T, seq<MoveDescription<M>>) -> (real, seq<real>))
      returns (finish: bool)
      requires Valid() && cur < |nodes| && Playable(getState, evaluate)
      modifies this
      ensures nodes == Expanded(old(nodes), cur, getState, makeMove, evaluate)
      ensures finish <==> old(nodes)[cur].nodeState.None? || nodes[cur].nodeState.value.isTerminal
      ensures Valid()
    {
      var nodesCnt := |nodes|;
      var compute := (g: T) => CalcState(g, nodesCnt, getState, evaluate);
      var expanded := NodeGetState(nodes[cur], compute);
      ghost var base := nodes;
      nodes := nodes[cur := expanded.0];
      finish := expanded.0.nodeState.value.isTerminal;
      if expanded.1.Some? {
        PushNodes(cur, expanded.1.value, makeMove);
        finish := true;
        ExpandAtArena(base, cur, getState, makeMove, evaluate);
      }
    }

    /** The pushes after a fresh expansion: one unexpanded node per move, holding the
        position of node `cur` after that move, appended in the order of the moves. */
    method PushNodes<M>(cur: nat, moves: seq<MoveDescription<M>>, makeMove: (T, MoveDescription<M>) -> T)
      requires cur < |nodes|
      modifies this
      ensures nodes == old(nodes) + NewNodes(old(nodes)[cur].gameState, moves, makeMove)
    {
      ghost var g := nodes[cur].gameState;
      for i := 0 to |moves|
        invariant nodes == old(nodes) + NewNodes(g, moves[..i], makeMove)
      {
        assert nodes[cur] == old(nodes)[cur];
        nodes := nodes + [MonteCarloNode(makeMove(nodes[cur].gameState, moves[i]), None)];
        assert moves[..i + 1] == moves[..i] + [moves[i]];
      }
      assert moves[..|moves|] == moves;
    }

    /** The `state_stack` popping loop: credit the path's edges from the last to the
        first, inverting the value on every edge whose move switches the player. */
    method Backpropagate(path: seq<(nat, nat)>, value: real)
      requires Valid() && forall k :: 0 <= k < |path| ==> EdgeOk(nodes, path[k])
      modifies this
      ensures nodes == BackpropFrom(old(nodes), path, value)
      ensures Valid()
    {
      var stack := path;
      var v := value;
      while stack != []
        invariant forall k :: 0 <= k < |stack| ==> EdgeOk(nodes, stack[k])
        invariant BackpropFrom(nodes, stack, v) == BackpropFrom(old(nodes), path, value)
        invariant Skeleton(nodes) == Skeleton(old(nodes))
        decreases |stack|
      {
        ghost var pre, preStack, preV := nodes, stack, v;
        var e := stack[|stack| - 1];
        stack := stack[..|stack| - 1];
        var ns := nodes[e.0].nodeState.value;
        if ns.children[e.1].info.playerSwitch {
          v := 1.0 - v;
        }
        var ch := ns.children[e.1];
        var ch' := Child(ch.index, ch.info, MoveDynamicInfo(ch.stats.totalScore + v, ch.stats.descends + 1));
        nodes := nodes[e.0 := MonteCarloNode(nodes[e.0].gameState, Some(NodeState(ns.value, ns.isTerminal, ns.children[e.1 := ch'])))];
        PopStep(pre, preStack, preV, nodes, v);
        assert forall k :: 0 <= k < |stack| ==> stack[k] == preStack[k];
      }
      SameSkeletonArena(old(nodes), nodes);
    }

    /** One simulation: the descent followed by the backup of the leaf's value. */
    method Simulate<M>(state: nat, cpuct: real, getState: T -> TerminationState<M>,
                       makeMove: (T, MoveDescription<M>) -> T,
                       evaluate: (T, seq<MoveDescription<M>>) -> (real, seq<real>),
                       sqrt: real -> real)
      returns (path: seq<(nat, nat)>, leaf: nat)
      requires Valid() && state < |nodes| && Playable(getState, evaluate)
      modifies this
      ensures leaf < |old(nodes)| && PathTo(old(nodes), state, path, leaf, cpuct, sqrt)
      ensures old(nodes)[leaf].nodeState.None? || old(nodes)[leaf].nodeState.value.isTerminal
      ensures nodes == Simulated(old(nodes), path, leaf, getState, makeMove, evaluate)
      ensures Valid()
    {
      var value;
      path, leaf, value := Descend(state, cpuct, getState, makeMove, evaluate, sqrt);
      if old(nodes)[leaf].nodeState.None? {
        ExpandAtKeepsEdges(old(nodes), leaf, getState, makeMove, evaluate);
      }
      Backpropagate(path, value);
    }

    /** `do_simulations`: `n` simulations from node `state`. The arena stays well
        formed and only grows; once a simulation has run, `state` is expanded; and
        when `state` starts expanded and non-terminal, its edges gain exactly `n`
        visits in all. */
    method DoSimulations<M>(n: nat, cpuct: real, state: nat, getState: T -> TerminationState<M>,
                            makeMove: (T, MoveDescription<M>) -> T,
                            evaluate: (T, seq<MoveDescription<M>>) -> (real, seq<real>),
                            sqrt: real -> real)
      requires Valid() && state < |nodes| && Playable(getState, evaluate)
      modifies this
      ensures Valid() && Extends(old(nodes), nodes)
      ensures n > 0 ==> nodes[state].nodeState.Some?
      ensures old(nodes)[state].nodeState.Some? && !old(nodes)[state].nodeState.value.isTerminal ==>
        && nodes[state].nodeState.Some?
        && TotalVisits(nodes[state].nodeState.value.children) == TotalVisits(old(nodes)[state].nodeState.value.children) + n
    {
      for i := 0 to n
        invariant Valid() && Extends(old(nodes), nodes)
        invariant i > 0 ==> nodes[state].nodeState.Some?
        invariant old(nodes)[state].nodeState.Some? && !old(nodes)[state].nodeState.value.isTerminal ==>
          && nodes[state].nodeState.Some? && !nodes[state].nodeState.value.isTerminal
          && TotalVisits(nodes[state].nodeState.value.children) == TotalVisits(old(nodes)[state].nodeState.value.children) + i
      {
        ghost var before := nodes;
        var path, leaf := Simulate(state, cpuct, getState, makeMove, evaluate, sqrt);
        SimulatedStats(before, state, path, leaf, cpuct, sqrt, getState, makeMove, evaluate);
        ExtendsTrans(old(nodes), before, nodes);
        NodeExpandedAfter(before, state, path, leaf, getState, makeMove, evaluate);
        if before[state].nodeState.Some? && !before[state].nodeState.value.isTerminal {
          SimulatedRootVisit(before, state, path, leaf, cpuct, sqrt, getState, makeMove, evaluate);
        }
      }
    }

    /** `get_policy`: the share of the node's visits taken by each edge. The source
        divides by the sum as `f32`, which gives NaN entries when there is no visit;
        the model asks for at least one. */
    function GetPolicy(state: nat): (r: seq<real>)
      reads this
      requires state < |nodes| && nodes[state].nodeState.Some?
      requires TotalVisits(nodes[state].nodeState.value.children) > 0
      ensures var cs := nodes[state].nodeState.value.children;
        && |r| == |cs|
        && (forall i :: 0 <= i < |r| ==> r[i] == (cs[i].stats.descends as real) / (TotalVisits(cs) as real))
        && (forall i :: 0 <= i < |r| ==> 0.0 <= r[i])
        && SumReals(r) == 1.0
    {
      var cs := nodes[state].nodeState.value.children;
      PolicyFacts(cs);
      Divided(VisitCounts(cs), TotalVisits(cs) as real)
    }

    /** `get_next_state`: the arena index of the child through edge `moveId`; in a
        well-formed arena it comes after `state` and lies inside the arena. */
    function GetNextState(state: nat, moveId: nat): (r: nat)
      reads this
      requires Valid() && EdgeOk(nodes, (state, moveId))
      ensures r == EdgeAt(nodes, (state, moveId)).index
      ensures state < r < |nodes|
    {
      assert NodeOk(nodes, state);
      nodes[state].nodeState.value.children[moveId].index
    }
  }

  /** After a simulation the node it started from is expanded, and an expanded node
      keeps its terminal flag. */
  lemma NodeExpandedAfter<T(!new), M>(nodes: seq<MonteCarloNode<T>>, start: nat, path: seq<(nat, nat)>, leaf: nat,
                                      getState: T -> TerminationState<M>,
                                      makeMove: (T, MoveDescription<M>) -> T,
                                      evaluate: (T, seq<MoveDescription<M>>) -> (real, seq<real>))
    requires ArenaOk(nodes) && start < |nodes| && Linked(nodes, start, path, leaf) && leaf < |nodes|
    requires Extends(nodes, Simulated(nodes, path, leaf, getState, makeMove, evaluate))
    ensures var r := Simulated(nodes, path, leaf, getState, makeMove, evaluate);
      && r[start].nodeState.Some?
      && (nodes[start].nodeState.Some? ==> r[start].nodeState.value.isTerminal == nodes[start].nodeState.value.isTerminal)
  {
    var r := Simulated(nodes, path, leaf, getState, makeMove, evaluate);
    var e := Expanded(nodes, leaf, getState, makeMove, evaluate);
    if nodes[start].nodeState.Some? {
      assert EraseNode(r[start]) == EraseNode(nodes[start]);
    } else {
      assert path == [] && leaf == start;
      assert r == e;
    }
  }

  /** The visit counts of the edges, as reals. */
  function VisitCounts(cs: seq<Child>): (r: seq<real>)
    ensures |r| == |cs|
    ensures forall i :: 0 <= i < |cs| ==> r[i] == cs[i].stats.descends as real
  {
    seq(|cs|, i requires 0 <= i < |cs| => cs[i].stats.descends as real)
  }

  /** The visit counts sum to the total visits. */
  lemma {:induction false} VisitCountsSum(cs: seq<Child>)
    ensures SumReals(VisitCounts(cs)) == TotalVisits(cs) as real
  {
    if cs != [] {
      var init := cs[..|cs| - 1];
      VisitCountsSum(init);
      assert VisitCounts(cs)[..|cs| - 1] == VisitCounts(init);
    }
  }

  /** The shares of the visits are non-negative and, when there is a visit, sum to one. */
  lemma PolicyFacts(cs: seq<Child>)
    requires TotalVisits(cs) > 0
    ensures var r := Divided(VisitCounts(cs), TotalVisits(cs) as real);
      && (forall i :: 0 <= i < |r| ==> 0.0 <= r[i])
      && SumReals(r) == 1.0
  {
    VisitCountsSum(cs);
    Normalised(VisitCounts(cs));
  }
}
